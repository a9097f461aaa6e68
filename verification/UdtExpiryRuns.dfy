/** What giving up a message can do to the others (src/udt/newlib/core.cpp): two runs of three messages
    of one packet each. In the first the numbers run ahead of the packets and a message is delivered
    twice; in the second they do not, and a message nobody gave up is lost. */
module UdtExpiryRuns {
  import opened Prelude
  import opened UdtPackets
  import opened UdtNumbers
  import opened UdtSender
  import opened UdtWindow
  import opened UdtScan
  import opened UdtTransfer

  /** The only packet of a message of one byte. */
  function One(no: bv32, order: bool, x: byte): Packet {
    Packet(MsgWord(no, order, true, true), [x])
  }

  lemma OneChop(x: byte, mss: nat, no: bv32, order: bool)
    requires mss > 0
    ensures Chop([x], mss, no, order) == [One(no, order, x)]
  {
    assert [x][..1] == [x] && [x][1..] == [];
    assert ChopRest([], mss, no, order, false) == [];
  }

  lemma OneFacts(no: bv32, order: bool, x: byte)
    requires 0 < no < MAX_MSG_NO
    ensures var p := One(no, order, x); Begins(p) && Ends(p) && MsgSeq(p) == no && p.data == [x]
  {
    MsgWordFields(no, order, true, true, [x]);
  }

  /** The messages and packets of both runs. */
  datatype Trio = Trio(order: bool, a: byte, b: byte, c: byte, mss: nat) {
    ghost predicate Valid() {
      mss > 0
    }

    function Messages(): seq<Message> {
      [Message([a], order), Message([b], order), Message([c], order)]
    }

    function A(): Packet {
      One(1, order, a)
    }

    function B(): Packet {
      One(2, order, b)
    }

    function C(): Packet {
      One(3, order, c)
    }

    function Packets(): seq<Packet> {
      [A(), B(), C()]
    }
  }

  function Empty(size: nat): seq<Option<Slot>> {
    seq(size, _ => None)
  }

  /** All three given to addBuffer, sent of them transmitted with numbers below next. */
  function Given(t: Trio, size: nat, sent: nat, next: nat, net: set<(nat, Packet)>, drops: set<DropRequest>): System {
    System(false, Sender(t.Packets(), sent, 4, t.mss), 0, next, net, drops, Window(0, Empty(size), 0, 0, 0), {}, {},
           t.Messages(), t.Packets(), [], [])
  }

  function Sends(t: Trio): seq<Event> {
    [Send(t.Messages()[0])] + ([Send(t.Messages()[1])] + ([Send(t.Messages()[2])] + []))
  }

  lemma AllGiven(t: Trio, size: nat)
    requires t.Valid() && size > 0
    ensures Run(Start(false, size, t.mss), Sends(t), Given(t, size, 0, 0, {}, {}))
  {
    OneChop(t.a, t.mss, 1, t.order);
    OneChop(t.b, t.mss, 2, t.order);
    OneChop(t.c, t.mss, 3, t.order);
    hide Chop, One;
    var s0 := Start(false, size, t.mss);
    var s1 := Next(s0, Send(t.Messages()[0]));
    var s2 := Next(s1, Send(t.Messages()[1]));
    var s3 := Next(s2, Send(t.Messages()[2]));
    assert s1.snd.packets == [t.A()] && s1.snd.nextMsgNo == 2;
    assert s2.snd.packets == [t.A(), t.B()] && s2.snd.nextMsgNo == 3;
    assert s3 == Given(t, size, 0, 0, {}, {});
    RunCons(s2, Send(t.Messages()[2]), s3, [], s3);
    RunCons(s1, Send(t.Messages()[1]), s2, [Send(t.Messages()[2])] + [], s3);
    RunCons(s0, Send(t.Messages()[0]), s1, [Send(t.Messages()[1])] + ([Send(t.Messages()[2])] + []), s3);
  }

  // ---- Reading a row of one-packet messages behind some holes ----

  function Slots(holes: nat, ps: seq<Packet>, size: nat): seq<Option<Slot>> {
    seq(size, j requires 0 <= j < size => if holes <= j < holes + |ps| then Some(Slot(ps[j - holes], 1)) else None)
  }

  /** Holes and packets, all acknowledged. */
  function Row(base: nat, holes: nat, ps: seq<Packet>, size: nat): Window {
    Window(base, Slots(holes, ps, size), holes + |ps|, 0, 0)
  }

  predicate Singles(ps: seq<Packet>) {
    forall i :: 0 <= i < |ps| ==> Begins(ps[i]) && Ends(ps[i]) && |ps[i].data| == 1
  }

  lemma RowSound(base: nat, holes: nat, ps: seq<Packet>, size: nat)
    requires holes + |ps| < size && Singles(ps)
    ensures ValidWindow(Row(base, holes, ps, size)) && WellBounded(Row(base, holes, ps, size))
  {
  }

  lemma {:induction false} HolesSkipped(base: nat, holes: nat, ps: seq<Packet>, size: nat)
    requires holes + |ps| < size && Singles(ps) && ps != []
    ensures SkipBad(Row(base, holes, ps, size)) == Row(base + holes, 0, ps, size)
    decreases holes
  {
    var w := Row(base, holes, ps, size);
    if holes > 0 {
      assert w.slots[0].None?;
      assert DropFront(w).slots == Slots(holes - 1, ps, size);
      HolesSkipped(base + 1, holes - 1, ps, size);
    } else {
      assert w.slots[0] == Some(Slot(ps[0], 1));
    }
  }

  lemma HeadFound(base: nat, ps: seq<Packet>, size: nat)
    requires |ps| < size && Singles(ps) && ps != []
    ensures Find(Row(base, 0, ps, size), 0, None) == Found(0, 0, false)
    ensures Scan(Row(base, 0, ps, size)).1 == Found(0, 0, false)
  {
    HolesSkipped(base, 0, ps, size);
    assert Row(base, 0, ps, size).slots[0] == Some(Slot(ps[0], 1));
  }

  lemma HeadTaken(base: nat, ps: seq<Packet>, size: nat)
    requires |ps| < size && Singles(ps) && ps != []
    ensures Present(Row(base, 0, ps, size), Found(0, 0, false))
    ensures Take(Row(base, 0, ps, size), Found(0, 0, false), 1) == (Row(base + 1, 0, ps[1..], size), ps[0].data)
  {
    var w := Row(base, 0, ps, size);
    assert w.slots[0] == Some(Slot(ps[0], 1));
    assert Drop(w, 1).slots == Slots(0, ps[1..], size);
    assert PacketsOf(w.slots[0..1]) == [ps[0]];
    assert Payload([ps[0]]) == ps[0].data by {
      assert [ps[0]][1..] == [];
    }
    assert ps[0].data[..1] == ps[0].data;
  }

  /** One call of readMsg on such a row. */
  lemma RowRead(base: nat, holes: nat, ps: seq<Packet>, size: nat)
    requires holes + |ps| < size && Singles(ps) && ps != []
    ensures var w := Row(base, holes, ps, size);
      && ValidWindow(w) && Scannable(w) && WellBounded(w)
      && UdtScan.ReadMsg(w, 1) == (Row(base + holes + 1, 0, ps[1..], size), ps[0].data)
      && Delivered(w, 1) == [Delivery(base + holes, base + holes + 1, 1, ps[0].data)]
  {
    RowSound(base, holes, ps, size);
    HolesSkipped(base, holes, ps, size);
    HeadFound(base + holes, ps, size);
    HeadTaken(base + holes, ps, size);
    hide Slots, SkipBad, Find, Take, Singles, WellBounded, ValidWindow;
  }

  /** What reading such a row delivers. */
  function Singly(base: nat, ps: seq<Packet>): seq<Delivery>
    decreases |ps|
  {
    if ps == [] then [] else [Delivery(base, base + 1, 1, ps[0].data)] + Singly(base + 1, ps[1..])
  }

  lemma {:induction false} RowDelivers(s: System, base: nat, holes: nat, ps: seq<Packet>, size: nat)
    returns (es: seq<Event>, s': System)
    requires holes + |ps| < size && Singles(ps) && ps != []
    requires Sound(s) && !s.stream && s.rcv == Row(base, holes, ps, size)
    ensures Run(s, es, s')
    ensures s' == s.(rcv := Row(base + holes + |ps|, 0, [], size), deliveries := s.deliveries + Singly(base + holes, ps))
    decreases |ps|
  {
    hide *;
    var t := RowStep(s, base, holes, ps, size);
    var rest := [];
    s' := t;
    RunNone(t);
    if |ps| > 1 {
      TailSingles(ps);
      rest, s' := RowDelivers(t, base + holes + 1, 0, ps[1..], size);
    }
    assert |ps| == 1 ==> ps[1..] == [];
    assert (base + holes + 1) + 0 + |ps[1..]| == base + holes + |ps| && (base + holes + 1) + 0 == base + holes + 1;
    es := [Event.ReadMsg(1)] + rest;
    RunCons(s, Event.ReadMsg(1), t, rest, s');
    SinglyMore(s.deliveries, base + holes, ps);
  }

  lemma RunNone(s: System)
    ensures Run(s, [], s)
  {
  }

  lemma SinglyMore(ds: seq<Delivery>, base: nat, ps: seq<Packet>)
    requires ps != []
    ensures |ps| == 1 ==> ds + Singly(base, ps) == ds + [Delivery(base, base + 1, 1, ps[0].data)]
    ensures ds + Singly(base, ps) == (ds + [Delivery(base, base + 1, 1, ps[0].data)]) + Singly(base + 1, ps[1..])
  {
  }

  lemma TailSingles(ps: seq<Packet>)
    requires ps != [] && Singles(ps)
    ensures Singles(ps[1..])
  {
  }

  lemma RowStep(s: System, base: nat, holes: nat, ps: seq<Packet>, size: nat) returns (t: System)
    requires holes + |ps| < size && Singles(ps) && ps != []
    requires Sound(s) && !s.stream && s.rcv == Row(base, holes, ps, size)
    ensures Leads(s, Event.ReadMsg(1), t) && Sound(t) && !t.stream
    ensures t == s.(rcv := Row(base + holes + 1, 0, ps[1..], size),
                    deliveries := s.deliveries + [Delivery(base + holes, base + holes + 1, 1, ps[0].data)])
  {
    RowRead(base, holes, ps, size);
    RowSound(base + holes + 1, 0, ps[1..], size);
    hide Slots, Singles, WellBounded, ValidWindow, UdtScan.ReadMsg, Delivered;
    t := Next(s, Event.ReadMsg(1));
  }

  // ---- Giving up A ----

  function Request(): DropRequest {
    DropRequest(1, 0, 1)
  }

  /** A row of packets that has come in behind two holes, with the highest offset seen. */
  function Come(t: Trio, size: nat, next: nat, net: set<(nat, Packet)>, ps: seq<Packet>, maxPos: nat): System {
    Given(t, size, 3, next, net, {Request()}).(rcv := Window(0, Slots(2, ps, size), 0, maxPos, 0), gone := {0, 1})
  }

  lemma EndOfA(t: Trio, sent: nat)
    requires t.Valid() && 0 < sent <= 3
    ensures EndAt(Sender(t.Packets(), sent, 4, t.mss), 0) == 1
    ensures SkipMessage(Sender(t.Packets(), sent, 4, t.mss), 0) == Sender(t.Packets(), sent, 4, t.mss)
    ensures MsgSeq(t.A()) == 1
  {
    OneFacts(1, t.order, t.a);
    OneFacts(2, t.order, t.b);
  }

  lemma PacketsFilled(t: Trio)
    ensures Filled(t.Packets()) && Singles(t.Packets())
  {
    OneFacts(1, t.order, t.a);
    OneFacts(2, t.order, t.b);
    OneFacts(3, t.order, t.c);
  }

  lemma EmptySound(t: Trio, size: nat, sent: nat, next: nat, net: set<(nat, Packet)>, drops: set<DropRequest>)
    requires t.Valid() && size > 0 && sent <= 3
    ensures Sound(Given(t, size, sent, next, net, drops))
  {
    PacketsFilled(t);
  }

  lemma SendOne(t: Trio, size: nat, sent: nat, next: nat, net: set<(nat, Packet)>, drops: set<DropRequest>, gone: set<nat>)
    requires t.Valid() && size > 0 && sent < 3
    ensures var s := Given(t, size, sent, next, net, drops).(gone := gone);
      Leads(s, Transmit, Given(t, size, sent + 1, next + 1, net + {(next, t.Packets()[sent])}, drops).(gone := gone))
  {
    EmptySound(t, size, sent, next, net, drops);
  }

  /** The message of A expires once `sent` packets have been sent. */
  lemma GiveUpA(t: Trio, size: nat, sent: nat, net: set<(nat, Packet)>)
    requires t.Valid() && size > 0 && 0 < sent <= 3
    ensures var s := Given(t, size, sent, sent, net, {});
      Leads(s, Expire(0), Given(t, size, sent, 3, net, {Request()}))
  {
    EmptySound(t, size, sent, sent, net, {});
    EndOfA(t, sent);
    hide EndAt, SkipMessage, MsgSeq;
    assert {} + {Request()} == {Request()};
  }

  lemma DropA(t: Trio, size: nat, sent: nat, net: set<(nat, Packet)>)
    requires t.Valid() && size > 0 && sent <= 3
    ensures var s := Given(t, size, sent, 3, net, {Request()});
      Leads(s, DropArrives(Request()), s.(gone := {0, 1}))
  {
    EmptySound(t, size, sent, 3, net, {Request()});
    var w := Window(0, Empty(size), 0, 0, 0);
    assert StruckTo(w.slots, 0, 1) == w.slots;
    assert StruckOut(w, 1) == {};
    assert Range(0, 1) == {0, 1} by {
      assert InRange(0, 0, 1) && InRange(1, 0, 1);
    }
  }

  lemma AckRow(t: Trio, size: nat, next: nat, net: set<(nat, Packet)>, ps: seq<Packet>)
    requires t.Valid() && |ps| > 0 && 2 + |ps| < size && Singles(ps)
    ensures var s := Come(t, size, next, net, ps, |ps| + 1);
      var s' := s.(rcv := Row(0, 2, ps, size), acks := {2 + |ps|});
      Leads(s, Event.Acknowledge(2 + |ps|), s') && Sound(s')
  {
    PacketsFilled(t);
    RowSound(0, 2, ps, size);
    assert {} + {2 + |ps|} == {2 + |ps|};
  }

  lemma ComeSound(t: Trio, size: nat, next: nat, net: set<(nat, Packet)>, slots: seq<Option<Slot>>, maxPos: nat)
    requires t.Valid() && |slots| == size && maxPos < size
    requires forall j :: 0 <= j < size && slots[j].Some? ==> j <= maxPos && j < size - 1 && slots[j].value.flag == 1
    ensures Sound(Given(t, size, 3, next, net, {Request()}).(rcv := Window(0, slots, 0, maxPos, 0), gone := {0, 1}))
  {
    PacketsFilled(t);
  }

  // ---- The numbers run ahead ----

  function AheadNet(t: Trio): set<(nat, Packet)> {
    {} + {(0, t.A())} + {(3, t.B())} + {(4, t.C())} + {(2, t.C())}
  }

  lemma SentAhead(t: Trio, size: nat) returns (es: seq<Event>)
    requires t.Valid() && size > 0
    ensures Run(Given(t, size, 0, 0, {}, {}), es, Given(t, size, 3, 5, AheadNet(t), {Request()}).(gone := {0, 1}))
  {
    var net1, d := {} + {(0, t.A())}, {Request()};
    var net2, net3 := net1 + {(3, t.B())}, net1 + {(3, t.B())} + {(4, t.C())};
    SendOne(t, size, 0, 0, {}, {}, {});
    GiveUpA(t, size, 1, net1);
    DropA(t, size, 1, net1);
    SendOne(t, size, 1, 3, net1, d, {0, 1});
    SendOne(t, size, 2, 4, net2, d, {0, 1});
    ResendC(t, size, net3);
    NoneGone(t, size, 0, 0, {});
    NoneGone(t, size, 1, 1, net1);
    hide Leads, Given;
    var s0, s1, s2 := Given(t, size, 0, 0, {}, {}), Given(t, size, 1, 1, net1, {}), Given(t, size, 1, 3, net1, d);
    var s3, s4 := s2.(gone := {0, 1}), Given(t, size, 2, 4, net2, d).(gone := {0, 1});
    var s5 := Given(t, size, 3, 5, net3, d).(gone := {0, 1});
    var s6 := Given(t, size, 3, 5, AheadNet(t), d).(gone := {0, 1});
    es := [Retransmit(2)] + [];
    RunCons(s5, Retransmit(2), s6, [], s6);
    RunCons(s4, Transmit, s5, es, s6);
    es := [Transmit] + es;
    RunCons(s3, Transmit, s4, es, s6);
    es := [Transmit] + es;
    RunCons(s2, DropArrives(Request()), s3, es, s6);
    es := [DropArrives(Request())] + es;
    RunCons(s1, Expire(0), s2, es, s6);
    es := [Expire(0)] + es;
    RunCons(s0, Transmit, s1, es, s6);
    es := [Transmit] + es;
  }

  lemma NoneGone(t: Trio, size: nat, sent: nat, next: nat, net: set<(nat, Packet)>)
    ensures Given(t, size, sent, next, net, {}).(gone := {}) == Given(t, size, sent, next, net, {})
  {
  }

  lemma ResendC(t: Trio, size: nat, net: set<(nat, Packet)>)
    requires t.Valid() && size > 0
    ensures var s := Given(t, size, 3, 5, net, {Request()}).(gone := {0, 1});
      Leads(s, Retransmit(2), Given(t, size, 3, 5, net + {(2, t.C())}, {Request()}).(gone := {0, 1}))
  {
    EmptySound(t, size, 3, 5, net, {Request()});
  }

  lemma OneArrives(t: Trio, size: nat, next: nat, net: set<(nat, Packet)>, slots: seq<Option<Slot>>, maxPos: nat,
                   no: nat, p: Packet)
    requires t.Valid() && |slots| == size && maxPos < size && no < size - 1 && (no, p) in net && slots[no].None?
    requires forall j :: 0 <= j < size && slots[j].Some? ==> j <= maxPos && j < size - 1 && slots[j].value.flag == 1
    ensures var s := Given(t, size, 3, next, net, {Request()}).(rcv := Window(0, slots, 0, maxPos, 0), gone := {0, 1});
      Leads(s, Arrive(no, p), s.(rcv := Window(0, slots[no := Some(Slot(p, 1))], 0, Larger(maxPos, no), 0)))
  {
    ComeSound(t, size, next, net, slots, maxPos);
  }

  /** B and C come in under the numbers 3, 2 and 4. */
  lemma ComeAhead(t: Trio, size: nat) returns (es: seq<Event>)
    requires t.Valid() && size >= 6
    ensures Run(Given(t, size, 3, 5, AheadNet(t), {Request()}).(gone := {0, 1}), es,
                Come(t, size, 5, AheadNet(t), [t.C(), t.B(), t.C()], 4))
  {
    var net, none := AheadNet(t), Empty(size);
    var one := none[3 := Some(Slot(t.B(), 1))];
    var two := one[2 := Some(Slot(t.C(), 1))];
    OneArrives(t, size, 5, net, none, 0, 3, t.B());
    OneArrives(t, size, 5, net, one, 3, 2, t.C());
    OneArrives(t, size, 5, net, two, 3, 4, t.C());
    assert two[4 := Some(Slot(t.C(), 1))] == Slots(2, [t.C(), t.B(), t.C()], size);
    var s0 := Given(t, size, 3, 5, net, {Request()}).(gone := {0, 1});
    var s1, s2 := s0.(rcv := Window(0, one, 0, 3, 0)), s0.(rcv := Window(0, two, 0, 3, 0));
    var s3 := Come(t, size, 5, net, [t.C(), t.B(), t.C()], 4);
    RunNone(s3);
    hide Leads, Run;
    RunCons(s2, Arrive(4, t.C()), s3, [], s3);
    RunCons(s1, Arrive(2, t.C()), s2, [Arrive(4, t.C())] + [], s3);
    RunCons(s0, Arrive(3, t.B()), s1, [Arrive(2, t.C())] + ([Arrive(4, t.C())] + []), s3);
    es := [Arrive(3, t.B())] + ([Arrive(2, t.C())] + ([Arrive(4, t.C())] + []));
  }

  /** Giving up A before anything behind it has been sent: B goes out under number 3, C under 4 and
      again under 2. C is delivered twice, and before B even if they are ordered; and five packets are
      acknowledged where the sender has three. */
  lemma NumbersAhead(t: Trio, size: nat) returns (es: seq<Event>, s: System)
    requires t.Valid() && size >= 6
    ensures Run(Start(false, size, t.mss), es, s) && s.messages == t.Messages()
    ensures s.next > SentEnd(s)
    ensures s.deliveries == [Delivery(2, 3, 1, [t.c]), Delivery(3, 4, 1, [t.b]), Delivery(4, 5, 1, [t.c])]
    ensures s.acks == {5} && s.sndAcked == 0 && |s.snd.packets| == 3
  {
    AllGiven(t, size);
    var sent := SentAhead(t, size);
    var come := ComeAhead(t, size);
    var read;
    read, s := ReadAhead(t, size);
    hide Run, Given, Come;
    var s0, s1 := Given(t, size, 0, 0, {}, {}), Given(t, size, 3, 5, AheadNet(t), {Request()}).(gone := {0, 1});
    RunConcat(s1, come, Come(t, size, 5, AheadNet(t), [t.C(), t.B(), t.C()], 4), read, s);
    RunConcat(s0, sent, s1, come + read, s);
    RunConcat(Start(false, size, t.mss), Sends(t), s0, sent + (come + read), s);
    es := Sends(t) + (sent + (come + read));
  }

  /** All of it is acknowledged and read. */
  lemma ReadAhead(t: Trio, size: nat) returns (es: seq<Event>, s: System)
    requires t.Valid() && size >= 6
    ensures Run(Come(t, size, 5, AheadNet(t), [t.C(), t.B(), t.C()], 4), es, s) && s.messages == t.Messages()
    ensures s.next > SentEnd(s)
    ensures s.deliveries == [Delivery(2, 3, 1, [t.c]), Delivery(3, 4, 1, [t.b]), Delivery(4, 5, 1, [t.c])]
    ensures s.acks == {5} && s.sndAcked == 0 && |s.snd.packets| == 3
  {
    var ps := [t.C(), t.B(), t.C()];
    PacketsFilled(t);
    AckRow(t, size, 5, AheadNet(t), ps);
    var s1 := Come(t, size, 5, AheadNet(t), ps, 4);
    var s2 := s1.(rcv := Row(0, 2, ps, size), acks := {5});
    assert s2 == Given(t, size, 3, 5, AheadNet(t), {Request()}).(rcv := Row(0, 2, ps, size), gone := {0, 1}, acks := {5});
    ThreeSingly(2, t.C(), t.B(), t.C());
    es, s := AckAndDeliver(s1, s2, ps, size);
  }

  lemma AckAndDeliver(s1: System, s2: System, ps: seq<Packet>, size: nat) returns (es: seq<Event>, s: System)
    requires 2 + |ps| < size && Singles(ps) && ps != []
    requires Leads(s1, Event.Acknowledge(2 + |ps|), s2)
    requires Sound(s2) && !s2.stream && s2.rcv == Row(0, 2, ps, size) && s2.deliveries == []
    ensures Run(s1, es, s) && s == s2.(rcv := Row(2 + |ps|, 0, [], size), deliveries := Singly(2, ps))
  {
    hide *;
    var read;
    read, s := RowDelivers(s2, 0, 2, ps, size);
    RunCons(s1, Event.Acknowledge(2 + |ps|), s2, read, s);
    es := [Event.Acknowledge(2 + |ps|)] + read;
    assert [] + Singly(2, ps) == Singly(2, ps);
  }

  lemma ThreeSingly(base: nat, p: Packet, q: Packet, r: Packet)
    ensures Singly(base, [p, q, r])
         == [Delivery(base, base + 1, 1, p.data), Delivery(base + 1, base + 2, 1, q.data), Delivery(base + 2, base + 3, 1, r.data)]
  {
    assert [p, q, r][1..] == [q, r] && [q, r][1..] == [r] && [r][1..] == [];
    assert Singly(base + 3, []) == [];
    assert Singly(base + 2, [r]) == [Delivery(base + 2, base + 3, 1, r.data)];
    assert Singly(base + 1, [q, r]) == [Delivery(base + 1, base + 2, 1, q.data)] + Singly(base + 2, [r]);
  }

  // ---- The request reaches one packet too far ----

  function AllNet(t: Trio): set<(nat, Packet)> {
    {} + {(0, t.A())} + {(1, t.B())} + {(2, t.C())}
  }

  lemma SentAll(t: Trio, size: nat) returns (es: seq<Event>)
    requires t.Valid() && size >= 4
    ensures Run(Given(t, size, 0, 0, {}, {}), es, Come(t, size, 3, AllNet(t), [t.C()], 2))
  {
    var net1 := {} + {(0, t.A())};
    var net2 := net1 + {(1, t.B())};
    SendOne(t, size, 0, 0, {}, {}, {});
    SendOne(t, size, 1, 1, net1, {}, {});
    SendOne(t, size, 2, 2, net2, {}, {});
    NoneGone(t, size, 0, 0, {});
    NoneGone(t, size, 1, 1, net1);
    NoneGone(t, size, 2, 2, net2);
    NoneGone(t, size, 3, 3, AllNet(t));
    GiveUpA(t, size, 3, AllNet(t));
    DropA(t, size, 3, AllNet(t));
    OneArrives(t, size, 3, AllNet(t), Empty(size), 0, 2, t.C());
    assert Empty(size)[2 := Some(Slot(t.C(), 1))] == Slots(2, [t.C()], size);
    var s0, s1, s2 := Given(t, size, 0, 0, {}, {}), Given(t, size, 1, 1, net1, {}), Given(t, size, 2, 2, net2, {});
    var s3, s4 := Given(t, size, 3, 3, AllNet(t), {}), Given(t, size, 3, 3, AllNet(t), {Request()});
    var s5, s6 := s4.(gone := {0, 1}), Come(t, size, 3, AllNet(t), [t.C()], 2);
    assert s5.(rcv := Window(0, Slots(2, [t.C()], size), 0, 2, 0)) == s6;
    RunNone(s6);
    hide Leads, Run, Given, Come;
    es := [Arrive(2, t.C())] + [];
    RunCons(s5, Arrive(2, t.C()), s6, [], s6);
    RunCons(s4, DropArrives(Request()), s5, es, s6);
    es := [DropArrives(Request())] + es;
    RunCons(s3, Expire(0), s4, es, s6);
    es := [Expire(0)] + es;
    RunCons(s2, Transmit, s3, es, s6);
    es := [Transmit] + es;
    RunCons(s1, Transmit, s2, es, s6);
    es := [Transmit] + es;
    RunCons(s0, Transmit, s1, es, s6);
    es := [Transmit] + es;
  }

  lemma AckComes(t: Trio, s: System)
    requires Sound(s) && !s.stream && s.snd == Sender(t.Packets(), 3, 4, t.mss) && s.sndAcked == 0 && s.acks == {3}
    ensures Leads(s, AckArrives(3), s.(snd := Sender([], 0, 4, t.mss), sndAcked := 3))
  {
    assert t.Packets()[3..] == [];
  }

  /** Giving up A once B and C have been sent keeps the numbers, but the request names the first packet
      behind A as well: with B lost on the way, the receiver acknowledges it, C is delivered even if
      it is ordered, and the sender lets B go. Nobody gave up B, and it is never delivered. */
  lemma NeighbourLost(t: Trio, size: nat) returns (es: seq<Event>, s: System)
    requires t.Valid() && size >= 4
    ensures Run(Start(false, size, t.mss), es, s) && s.messages == t.Messages()
    ensures s.next == SentEnd(s) && s.drops == {DropRequest(MsgSeq(t.A()), 0, 1)}
    ensures s.deliveries == [Delivery(2, 3, 1, [t.c])]
    ensures s.rcv.base == 3 && s.snd.packets == []
  {
    var ps := [t.C()];
    PacketsFilled(t);
    EndOfA(t, 3);
    AllGiven(t, size);
    var sent := SentAll(t, size);
    AckRow(t, size, 3, AllNet(t), ps);
    var s0, s1 := Given(t, size, 0, 0, {}, {}), Come(t, size, 3, AllNet(t), ps, 2);
    var s2 := s1.(rcv := Row(0, 2, ps, size), acks := {3});
    var s3 := RowStep(s2, 0, 2, ps, size);
    AckComes(t, s3);
    s := s3.(snd := Sender([], 0, 4, t.mss), sndAcked := 3);
    RunNone(s);
    hide Run, Leads, Slots, Sound;
    es := [AckArrives(3)] + [];
    RunCons(s3, AckArrives(3), s, [], s);
    RunCons(s2, Event.ReadMsg(1), s3, es, s);
    es := [Event.ReadMsg(1)] + es;
    RunCons(s1, Event.Acknowledge(3), s2, es, s);
    es := [Event.Acknowledge(3)] + es;
    RunConcat(s0, sent, s1, es, s);
    es := sent + es;
    RunConcat(Start(false, size, t.mss), Sends(t), s0, es, s);
    es := Sends(t) + es;
  }
}
