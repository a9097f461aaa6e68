/** Messages larger than the receiving buffer: they do reach the fallback of scanMsg, and are never
    delivered, while every smaller message can be (src/udt/newlib/buffer.cpp). */
module UdtOversize {
  import opened Prelude
  import opened UdtPackets
  import opened UdtNumbers
  import opened UdtSender
  import opened UdtWindow
  import opened UdtScan
  import opened UdtOverflow
  import opened UdtTransfer
  import opened UdtMessageMode

  /** The packets a message is cut into when it is the first one sent. */
  function PacketsFor(m: Message, mss: nat): seq<Packet>
    requires mss > 0
  {
    Chop(m.data, mss, 1, m.order)
  }

  /** The first n of these packets in the slots of an empty buffer. */
  function Slots(ps: seq<Packet>, n: nat, size: nat): seq<Option<Slot>>
    requires n <= |ps|
  {
    seq(size, i requires 0 <= i < size => if i < n then Some(Slot(ps[i], 1)) else None)
  }

  /** Only message m has been sent, and its first n packets have come in, none acknowledged. */
  ghost predicate Arriving(s: System, m: Message, mss: nat, size: nat, n: nat)
    requires mss > 0
  {
    var ps := PacketsFor(m, mss);
    && Inv(s) && !s.stream && s.sndAcked == 0 && s.deliveries == [] && s.messages == [m]
    && s.log == ps && s.snd.sent == n <= |ps| && n < size
    && s.rcv == Window(0, Slots(ps, n, size), 0, if n == 0 then 0 else n - 1, 0)
  }

  lemma SentFirst(m: Message, mss: nat, size: nat) returns (s: System)
    requires mss > 0 && size > 0
    ensures Arriving(s, m, mss, size, 0)
    ensures Leads(Start(false, size, mss), Send(m), s)
  {
    var s0 := Start(false, size, mss);
    StartInv(false, size, mss);
    s := Next(s0, Send(m));
    StepInv(s0, Send(m));
    hide Inv, Chop;
    assert [] + PacketsFor(m, mss) == PacketsFor(m, mss) && [] + [m] == [m];
    assert Slots(PacketsFor(m, mss), 0, size) == seq(size, _ => None);
  }

  /** One more packet is sent. */
  lemma OneSent(s: System, m: Message, mss: nat, size: nat, n: nat) returns (t: System)
    requires mss > 0 && Arriving(s, m, mss, size, n) && n < |PacketsFor(m, mss)|
    ensures Leads(s, Transmit, t) && Inv(t) && (n, PacketsFor(m, mss)[n]) in t.net
    ensures t == s.(snd := s.snd.(sent := n + 1), next := t.next, net := t.net)
  {
    StepInv(s, Transmit);
    t := Next(s, Transmit);
    assert s.snd.packets == s.log[0..] && s.snd.packets[n] == PacketsFor(m, mss)[n];
  }

  /** One more packet is sent and comes in. */
  lemma OneMore(s: System, m: Message, mss: nat, size: nat, n: nat) returns (packet: Packet, t: System, s': System)
    requires mss > 0 && Arriving(s, m, mss, size, n) && n < |PacketsFor(m, mss)| && n + 1 < size
    ensures Leads(s, Transmit, t) && Leads(t, Arrive(n, packet), s') && Arriving(s', m, mss, size, n + 1)
  {
    packet := PacketsFor(m, mss)[n];
    t := OneSent(s, m, mss, size, n);
    assert Sound(t);
    hide Inv, Chop;
    StepInv(t, Arrive(n, packet));
    s' := Next(t, Arrive(n, packet));
    assert s.rcv.slots[n := Some(Slot(packet, 1))] == Slots(PacketsFor(m, mss), n + 1, size);
  }

  /** All of the first n packets come in. */
  lemma {:induction false} Fill(s: System, m: Message, mss: nat, size: nat, k: nat, n: nat) returns (es: seq<Event>, s': System)
    requires mss > 0 && Arriving(s, m, mss, size, k) && k <= n <= |PacketsFor(m, mss)| && n < size
    ensures Run(s, es, s') && Arriving(s', m, mss, size, n)
    decreases n - k
  {
    if k == n {
      es, s' := [], s;
    } else {
      hide Leads, Arriving;
      var packet, t, t' := OneMore(s, m, mss, size, k);
      es, s' := Fill(t', m, mss, size, k + 1, n);
      RunCons(t, Arrive(k, packet), t', es, s');
      RunCons(s, Transmit, t, [Arrive(k, packet)] + es, s');
      es := [Transmit] + ([Arrive(k, packet)] + es);
    }
  }

  lemma FillFromStart(m: Message, mss: nat, size: nat, n: nat) returns (es: seq<Event>, s: System)
    requires mss > 0 && n <= |PacketsFor(m, mss)| && n < size
    ensures Run(Start(false, size, mss), es, s) && Arriving(s, m, mss, size, n)
  {
    hide Leads, Arriving;
    var t := SentFirst(m, mss, size);
    es, s := Fill(t, m, mss, size, 0, n);
    RunCons(Start(false, size, mss), Send(m), t, es, s);
    es := [Send(m)] + es;
  }

  // ---- The fallback is reached ----

  lemma FullIsChoked(m: Message, mss: nat, size: nat, w: Window)
    requires mss > 0 && size >= 2 && |PacketsFor(m, mss)| >= size
    requires w == Window(0, Slots(PacketsFor(m, mss), size - 1, size), 0, size - 2, 0)
    ensures Choked(w)
  {
    ChopIsMessage(m.data, mss, 1, m.order);
    hide Chop;
    var ps := PacketsFor(m, mss);
    assert forall j :: 0 <= j < size - 1 ==> w.slots[j] == Some(Slot(ps[j], 1));
    assert !Ends(ps[size - 2]);
  }

  /** For every buffer of three slots or more and every message of at least as many packets: once all
      slots but one are full, scanMsg takes its fallback, and readMsg returns nothing. */
  lemma OversizeOverflows(m: Message, mss: nat, size: nat, len: nat) returns (es: seq<Event>, s: System)
    requires mss > 0 && size >= 3 && |PacketsFor(m, mss)| >= size
    ensures Run(Start(false, size, mss), es, s) && Inv(s) && s.rcv.notch == 0
    ensures Scan(s.rcv).1 == Overflow(0) && UdtScan.ReadMsg(s.rcv, len) == (s.rcv, [])
  {
    es, s := FillFromStart(m, mss, size, size - 1);
    FullIsChoked(m, mss, size, s.rcv);
    hide Slots, Chop;
    OverflowIff(s.rcv);
    ChokedOverflows(s.rcv, 0);
  }

  // ---- What can be delivered ----

  ghost predicate Fits(s: System, size: nat) {
    && |s.rcv.slots| == size
    && forall i :: 0 <= i < |s.deliveries| ==> s.deliveries[i].end - s.deliveries[i].start < size
  }

  lemma FoundEnds(w: Window, r: ScanResult)
    requires ValidWindow(w) && Scannable(w) && r.Found? && Deliverable(w, r.p, r.q)
    ensures r.q + 1 - r.p < |w.slots|
  {
    assert Unread(w.slots[r.q]);
  }

  lemma FoundFits(w: Window, len: nat, gone: set<nat>)
    requires ValidWindow(w) && Scannable(w) && WellBounded(w) && Excused(false, w, gone)
    ensures |UdtScan.ReadMsg(w, len).0.slots| == |w.slots|
    ensures forall i :: 0 <= i < |Delivered(w, len)| ==> Delivered(w, len)[i].end - Delivered(w, len)[i].start < |w.slots|
  {
    hide UdtScan.ReadMsg, Scan, SkipBad, Find, WellBounded, Excused, ValidWindow, Deliverable, GoodHead;
    ReadMsgKeeps(w, len, gone);
    var k := ScanMoves(w);
    ScanFinds(w);
    if Scan(w).1.Found? {
      FoundEnds(Scan(w).0, Scan(w).1);
    }
  }

  lemma StepFits(s: System, e: Event, size: nat)
    requires Inv(s) && Enabled(s, e) && Fits(s, size)
    ensures Fits(Next(s, e), size)
  {
    if e.ReadMsg? {
      FoundFits(s.rcv, e.len, s.gone);
    } else if e.Read? {
      var k := ReadShifts(s.rcv, e.len);
    }
  }

  lemma {:induction false} RunFits(s: System, es: seq<Event>, s': System, size: nat)
    requires Run(s, es, s') && ClearRun(s, es, s') && Inv(s) && Fits(s, size)
    ensures Inv(s') && Fits(s', size)
    decreases |es|
  {
    if es != [] {
      StepInv(s, es[0]);
      StepFits(s, es[0], size);
      RunFits(Next(s, es[0]), es[1..], s', size);
    }
  }

  /** Over every run, a message that is delivered has fewer packets than the buffer has slots. */
  lemma DeliveredFits(size: nat, mss: nat, es: seq<Event>, s: System, i: nat, m: nat)
    requires size > 0 && mss > 0 && Run(Start(false, size, mss), es, s) && s.next == SentEnd(s)
    requires i < |s.deliveries| && Carries(s.messages, mss, m, s.deliveries[i].start, s.deliveries[i].end)
    ensures 0 < |Chop(s.messages[m].data, mss, NoAt(m), s.messages[m].order)| < size
  {
    StartInv(false, size, mss);
    InStepIff(Start(false, size, mss), es, s);
    RunFits(Start(false, size, mss), es, s, size);
    NoAtInRange(m);
    LastCarriesOrder(s.messages[m], mss, NoAt(m));
  }

  /** Some run in which only this message is sent delivers it, with all its bytes. */
  ghost predicate CanDeliver(size: nat, mss: nat, m: Message)
    requires size > 0 && mss > 0
  {
    exists es, s :: Run(Start(false, size, mss), es, s) && Got(s, m)
  }

  ghost predicate Got(s: System, m: Message) {
    s.next == SentEnd(s) && s.messages == [m] && |s.deliveries| == 1 && s.deliveries[0].bytes == m.data
  }

  lemma AckedIsFound(m: Message, mss: nat, w: Window)
    requires mss > 0 && ValidWindow(w) && w.notch == 0 && WellBounded(w)
    requires var ps := PacketsFor(m, mss);
      0 < |ps| < |w.slots| && w.acked == |ps| && w.slots == Slots(ps, |ps|, |w.slots|)
    ensures Scan(w).1.Found?
  {
    ChopIsMessage(m.data, mss, 1, m.order);
    hide Chop;
    var ps := PacketsFor(m, mss);
    var n := |ps|;
    assert forall j :: 0 <= j < n ==> w.slots[j] == Some(Slot(ps[j], 1));
    AllAhead(w, 0);
    assert UnreadMessage(w, 0, n - 1) && Deliverable(w, 0, n - 1);
    FindComplete(w, 0, None, 0, n - 1);
  }

  lemma {:induction false} AllAhead(w: Window, i: nat)
    requires i <= w.acked <= |w.slots| && forall j :: 0 <= j < w.acked ==> Unread(w.slots[j])
    ensures LookAhead(w, i)
    decreases w.acked - i
  {
    if i < w.acked {
      AllAhead(w, i + 1);
    }
  }

  /** A message can be delivered exactly when it has a packet, and fewer than the buffer has slots. */
  lemma CanDeliverIff(size: nat, mss: nat, m: Message)
    requires size > 0 && mss > 0
    ensures CanDeliver(size, mss, m) <==> 0 < |PacketsFor(m, mss)| < size
  {
    hide Chop, Inv;
    if 0 < |PacketsFor(m, mss)| < size {
      var es, s := Delivers(size, mss, m);
    } else if CanDeliver(size, mss, m) {
      var es, s :| Run(Start(false, size, mss), es, s) && Got(s, m);
      GotCarries(size, mss, m, es, s);
      DeliveredFits(size, mss, es, s, 0, 0);
    }
  }

  lemma GotCarries(size: nat, mss: nat, m: Message, es: seq<Event>, s: System)
    requires size > 0 && mss > 0 && Run(Start(false, size, mss), es, s)
    requires s.next == SentEnd(s) && s.messages == [m] && |s.deliveries| == 1
    ensures Carries(s.messages, mss, 0, s.deliveries[0].start, s.deliveries[0].end)
    ensures s.deliveries[0].bytes == Front(m.data, s.deliveries[0].len)
  {
    MessageDelivery(size, mss, es, s);
    hide Run, Front;
    var k: nat :| Carries(s.messages, mss, k, s.deliveries[0].start, s.deliveries[0].end)
               && s.deliveries[0].bytes == Front(s.messages[k].data, s.deliveries[0].len);
  }

  /** Once all its packets have come in, acknowledging them and one readMsg deliver the message. */
  lemma AckAndRead(t: System, m: Message, mss: nat, size: nat, n: nat) returns (s: System)
    requires mss > 0 && Arriving(t, m, mss, size, n) && n == |PacketsFor(m, mss)| > 0
    ensures Run(t, [Acknowledge(n), ReadMsg(|m.data|)], s)
    ensures s.next == SentEnd(s) && s.messages == [m] && |s.deliveries| == 1 && s.deliveries[0].len == |m.data|
  {
    var u := AckAll(t, m, mss, size, n);
    s := ReadOnly(u, m, mss);
    hide Leads;
    RunCons(u, ReadMsg(|m.data|), s, [], s);
    RunCons(t, Acknowledge(n), u, [ReadMsg(|m.data|)], s);
  }

  lemma AckAll(t: System, m: Message, mss: nat, size: nat, n: nat) returns (u: System)
    requires mss > 0 && Arriving(t, m, mss, size, n) && n == |PacketsFor(m, mss)| > 0
    ensures Leads(t, Acknowledge(n), u) && Inv(u) && !u.stream && u.messages == [m] && u.deliveries == []
    ensures Scan(u.rcv).1.Found?
  {
    StepInv(t, Acknowledge(n));
    u := Next(t, Acknowledge(n));
    hide Inv, Chop;
    AckedIsFound(m, mss, u.rcv);
  }

  lemma ReadOnly(u: System, m: Message, mss: nat) returns (s: System)
    requires Inv(u) && !u.stream && u.messages == [m] && u.deliveries == [] && Scan(u.rcv).1.Found?
    ensures Leads(u, ReadMsg(|m.data|), s)
    ensures s.next == SentEnd(s) && s.messages == [m] && |s.deliveries| == 1 && s.deliveries[0].len == |m.data|
  {
    s := Next(u, ReadMsg(|m.data|));
    StepInv(u, ReadMsg(|m.data|));
    hide Scan, UdtScan.ReadMsg;
  }

  lemma Delivers(size: nat, mss: nat, m: Message) returns (es: seq<Event>, s: System)
    requires size > 0 && mss > 0 && 0 < |PacketsFor(m, mss)| < size
    ensures Run(Start(false, size, mss), es, s) && Got(s, m)
  {
    var n := |PacketsFor(m, mss)|;
    var fill, t := FillFromStart(m, mss, size, n);
    s := AckAndRead(t, m, mss, size, n);
    es := fill + [Acknowledge(n), ReadMsg(|m.data|)];
    hide Next, Enabled, Inv, Chop, Arriving, Run;
    RunConcat(Start(false, size, mss), fill, t, [Acknowledge(n), ReadMsg(|m.data|)], s);
    GotCarries(size, mss, m, es, s);
  }
}
