/** Stream mode end to end: what readBuffer returns is a prefix of what addBuffer was given. */
module UdtStreamMode {
  import opened Prelude
  import opened UdtPackets
  import opened UdtSender
  import opened UdtWindow
  import opened UdtTransfer

  function Given(ms: seq<Message>): seq<byte> {
    if ms == [] then [] else Given(ms[..|ms| - 1]) + ms[|ms| - 1].data
  }

  ghost predicate StreamInv(s: System) {
    && Inv(s) && s.stream
    && s.read + Stream(s.rcv) == Payload(s.log[..AckPoint(s)])
    && Payload(s.log) == Given(s.messages)
  }

  lemma PayloadSplit(ps: seq<Packet>, k: nat)
    requires k <= |ps|
    ensures Payload(ps) == Payload(ps[..k]) + Payload(ps[k..])
  {
    hide Payload;
    PayloadConcat(ps[..k], ps[k..]);
    assert ps == ps[..k] + ps[k..];
  }

  /** The bytes of a message go to the end of the log and of what was given. */
  lemma SendConserves(s: System, m: Message)
    requires StreamInv(s)
    ensures Payload(s.log + Chop(m.data, s.snd.mss, s.snd.nextMsgNo, m.order)) == Given(s.messages + [m])
  {
    PayloadConcat(s.log, Chop(m.data, s.snd.mss, s.snd.nextMsgNo, m.order));
    if m.data != [] {
      ChopIsMessage(m.data, s.snd.mss, s.snd.nextMsgNo, m.order);
    }
    hide Chop, Stream;
    assert (s.messages + [m])[..|s.messages|] == s.messages;
  }

  lemma SendStream(s: System, m: Message)
    requires StreamInv(s)
    ensures StreamInv(Next(s, Send(m)))
  {
    SendInv(s, m);
    SendConserves(s, m);
    var ps := Chop(m.data, s.snd.mss, s.snd.nextMsgNo, m.order);
    assert s.log <= s.log + ps && AckPoint(s) <= |s.log|;
    StreamExtended(s, Next(s, Send(m)), ps, m);
  }

  lemma StreamExtended(s: System, s': System, ps: seq<Packet>, m: Message)
    requires StreamInv(s) && Inv(s') && s'.stream && s'.rcv == s.rcv && s'.read == s.read && AckPoint(s) <= |s.log|
    requires s'.log == s.log + ps && s'.messages == s.messages + [m] && Payload(s'.log) == Given(s'.messages)
    ensures StreamInv(s')
  {
    hide Payload, Given, Stream;
    assert (s.log + ps)[..AckPoint(s)] == s.log[..AckPoint(s)];
  }

  lemma SameStream(w: Window, w': Window)
    requires Contiguous(w) && Contiguous(w') && w'.acked == w.acked && w'.notch == w.notch
    requires |w'.slots| == |w.slots| && forall j :: 0 <= j < w.acked ==> w'.slots[j] == w.slots[j]
    ensures Stream(w') == Stream(w)
  {
    if w.acked > 0 {
      assert w'.slots[1..w.acked] == w.slots[1..w.acked];
    }
  }

  /** A step that leaves the reader's side of the stream alone keeps the invariant. */
  lemma StreamKept(s: System, s': System)
    requires StreamInv(s) && Inv(s') && s'.stream && Stream(s'.rcv) == Stream(s.rcv)
    requires AckPoint(s') == AckPoint(s) && (s'.read, s'.log, s'.messages) == (s.read, s.log, s.messages)
    ensures StreamInv(s')
  {
    hide Stream, Payload, Given;
  }

  lemma ArriveStream(s: System, no: nat, packet: Packet)
    requires StreamInv(s) && Enabled(s, Arrive(no, packet))
    ensures StreamInv(s.(rcv := Arrived(s.rcv, no, packet)))
  {
    ArriveInv(s, no, packet);
    ArrivedReceives(s.stream, s.rcv, s.log, s.gone, SentEnd(s), no);
    ArrivedStream(s.rcv, no, packet);
    hide Inv, StreamInv, Stream, Arrived;
    StreamKept(s, s.(rcv := Arrived(s.rcv, no, packet)));
  }

  lemma ArrivedStream(rcv: Window, no: nat, packet: Packet)
    requires ValidWindow(rcv) && Contiguous(rcv) && Contiguous(Arrived(rcv, no, packet))
    ensures Stream(Arrived(rcv, no, packet)) == Stream(rcv)
  {
    hide Stream, Contiguous;
    SameStream(rcv, Arrived(rcv, no, packet));
  }

  lemma PacketsOfSplit(slots: seq<Option<Slot>>, k: nat)
    requires k <= |slots| && forall j :: 0 <= j < |slots| ==> slots[j].Some?
    ensures Payload(PacketsOf(slots)) == Payload(PacketsOf(slots[..k])) + Payload(PacketsOf(slots[k..]))
  {
    PayloadConcat(PacketsOf(slots[..k]), PacketsOf(slots[k..]));
    assert PacketsOf(slots) == PacketsOf(slots[..k]) + PacketsOf(slots[k..]);
  }

  lemma StreamStarts(w: Window, m: nat)
    requires ValidWindow(w) && Contiguous(w) && w.acked == 0 && m < |w.slots|
    requires forall j :: 0 <= j < m ==> w.slots[j].Some?
    ensures Contiguous(AckData(w, m)) && Stream(AckData(w, m)) == Payload(PacketsOf(w.slots[..m]))
  {
    if m > 0 {
      assert PacketsOf(w.slots[..m])[1..] == PacketsOf(w.slots[1..m]);
    }
  }

  lemma StreamExtends(w: Window, m: nat)
    requires ValidWindow(w) && Contiguous(w) && 0 < w.acked <= m < |w.slots|
    requires forall j :: w.acked <= j < m ==> w.slots[j].Some?
    ensures Contiguous(AckData(w, m - w.acked))
    ensures Stream(AckData(w, m - w.acked)) == Stream(w) + Payload(PacketsOf(w.slots[w.acked..m]))
  {
    hide Payload, PacketsOf, ValidWindow;
    JoinSlices(w.slots, w.acked, m);
    Regroup(w.slots[0].value.packet.data[w.notch..], Payload(PacketsOf(w.slots[1..w.acked])),
            Payload(PacketsOf(w.slots[w.acked..m])));
  }

  /** Acknowledging len more packets makes exactly their bytes readable. */
  lemma StreamGrows(w: Window, len: nat)
    requires ValidWindow(w) && Contiguous(w) && w.acked + len < |w.slots|
    requires forall j :: w.acked <= j < w.acked + len ==> w.slots[j].Some?
    ensures Contiguous(AckData(w, len))
    ensures Stream(AckData(w, len)) == Stream(w) + Payload(PacketsOf(w.slots[w.acked..w.acked + len]))
  {
    hide Payload, PacketsOf, ValidWindow;
    if w.acked > 0 {
      StreamExtends(w, w.acked + len);
    } else {
      StreamStarts(w, len);
      assert w.slots[0..len] == w.slots[..len];
    }
  }

  lemma JoinSlices(slots: seq<Option<Slot>>, n: nat, m: nat)
    requires 0 < n <= m <= |slots| && forall j :: 1 <= j < m ==> slots[j].Some?
    ensures Payload(PacketsOf(slots[1..m])) == Payload(PacketsOf(slots[1..n])) + Payload(PacketsOf(slots[n..m]))
  {
    hide Payload, PacketsOf;
    PacketsOfSplit(slots[1..m], n - 1);
    assert slots[1..m][..n - 1] == slots[1..n] && slots[1..m][n - 1..] == slots[n..m];
  }

  lemma MirrorSlice(w: Window, a: nat, b: nat, log: seq<Packet>, end: nat)
    requires a <= b <= |w.slots| && end <= |log| && Mirrors(w, log[..end])
    requires forall j :: a <= j < b ==> w.slots[j].Some?
    ensures a < b ==> w.base + b <= end
    ensures a < b ==> PacketsOf(w.slots[a..b]) == log[w.base + a..w.base + b]
  {
    if a < b {
      assert w.slots[b - 1].Some?;
    }
  }

  lemma AckConserves(w: Window, len: nat, read: seq<byte>, log: seq<Packet>, end: nat)
    requires ValidWindow(w) && Contiguous(w) && w.acked + len < |w.slots|
    requires forall j :: w.acked <= j < w.acked + len ==> w.slots[j].Some?
    requires w.base + w.acked <= end <= |log| && Mirrors(w, log[..end])
    requires read + Stream(w) == Payload(log[..w.base + w.acked])
    ensures Contiguous(AckData(w, len)) && w.base + w.acked + len <= end
    ensures read + Stream(AckData(w, len)) == Payload(log[..w.base + w.acked + len])
  {
    hide Stream, Payload, ValidWindow, Contiguous, Mirrors;
    if len > 0 {
      AckSome(w, len, read, log, end);
    } else {
      assert AckData(w, len) == w;
    }
  }

  lemma AckSome(w: Window, len: nat, read: seq<byte>, log: seq<Packet>, end: nat)
    requires ValidWindow(w) && Contiguous(w) && 0 < len < |w.slots| - w.acked
    requires forall j :: w.acked <= j < w.acked + len ==> w.slots[j].Some?
    requires w.base + w.acked <= end <= |log| && Mirrors(w, log[..end])
    requires read + Stream(w) == Payload(log[..w.base + w.acked])
    ensures Contiguous(AckData(w, len)) && w.base + w.acked + len <= end
    ensures read + Stream(AckData(w, len)) == Payload(log[..w.base + w.acked + len])
  {
    hide *;
    var a, b := w.base + w.acked, w.base + w.acked + len;
    StreamGrows(w, len);
    MirrorSlice(w, w.acked, w.acked + len, log, end);
    LogPrefix(log, a, b);
    Regroup(read, Stream(w), Payload(log[a..b]));
  }

  lemma LogPrefix(log: seq<Packet>, a: nat, b: nat)
    requires a <= b <= |log|
    ensures Payload(log[..b]) == Payload(log[..a]) + Payload(log[a..b])
  {
    PayloadSplit(log[..b], a);
    assert log[..b][..a] == log[..a] && log[..b][a..] == log[a..b];
  }

  lemma AcknowledgeStream(s: System, len: nat)
    requires StreamInv(s) && Enabled(s, Event.Acknowledge(len))
    ensures StreamInv(s.(rcv := AckData(s.rcv, len), acks := s.acks + {AckPoint(s) + len}))
  {
    hide Stream, Contiguous, ValidWindow, Mirrors, Bounded;
    AcknowledgeInv(s, len);
    AckConserves(s.rcv, len, s.read, s.log, SentEnd(s));
  }

  lemma ReadKeepsAckPoint(w: Window, len: nat)
    requires Contiguous(w)
    ensures var w' := UdtWindow.Read(w, len).0;
            w'.base + w'.acked == w.base + w.acked
  {
    var k := ReadShifts(w, len);
  }

  lemma PrefixMoves(read: seq<byte>, stream: seq<byte>, n: nat)
    requires n <= |stream|
    ensures (read + stream[..n]) + stream[n..] == read + stream
  {
  }

  lemma ReadStream(s: System, len: nat)
    requires StreamInv(s) && Enabled(s, Event.Read(len))
    ensures var (w, bytes) := UdtWindow.Read(s.rcv, len); StreamInv(s.(rcv := w, read := s.read + bytes))
  {
    ReadInv(s, len);
    assert Contiguous(s.rcv);
    hide Inv, Stream, Contiguous, Payload, Given;
    ReadKeepsAckPoint(s.rcv, len);
    ReadTakesPrefix(s.rcv, len);
    PrefixMoves(s.read, Stream(s.rcv), Min(len, |Stream(s.rcv)|));
  }

  lemma QuietStream(s: System, e: Event)
    requires StreamInv(s) && Enabled(s, e) && (e.Transmit? || e.Retransmit? || e.AckArrives?)
    ensures StreamInv(Next(s, e))
  {
    StepInv(s, e);
    hide Inv, StreamInv, Stream;
    StreamKept(s, Next(s, e));
  }

  lemma StepStream(s: System, e: Event)
    requires StreamInv(s) && Enabled(s, e)
    ensures StreamInv(Next(s, e))
  {
    assert s.stream && s.drops == {} && !e.Expire?;
    hide StreamInv, Inv, Next;
    match e
    case Send(m) => SendStream(s, m);
    case Arrive(no, packet) => ArriveNext(s, no, packet);
    case Acknowledge(len) => AcknowledgeNext(s, len);
    case Read(len) => ReadNext(s, len);
    case ReadMsg(_) =>
    case DropArrives(_) =>
    case Expire(_) =>
    case _ => QuietStream(s, e);
  }

  lemma ArriveNext(s: System, no: nat, packet: Packet)
    requires StreamInv(s) && Enabled(s, Arrive(no, packet))
    ensures StreamInv(Next(s, Arrive(no, packet)))
  {
    hide StreamInv, Inv, Arrived;
    ArriveStream(s, no, packet);
  }

  lemma AcknowledgeNext(s: System, len: nat)
    requires StreamInv(s) && Enabled(s, Event.Acknowledge(len))
    ensures StreamInv(Next(s, Event.Acknowledge(len)))
  {
    hide StreamInv, Inv, AckData;
    AcknowledgeStream(s, len);
  }

  lemma ReadNext(s: System, len: nat)
    requires StreamInv(s) && Enabled(s, Event.Read(len))
    ensures StreamInv(Next(s, Event.Read(len)))
  {
    hide StreamInv, Inv, UdtWindow.Read;
    ReadStream(s, len);
  }

  lemma {:induction false} RunStream(s: System, es: seq<Event>, s': System)
    requires StreamInv(s) && Run(s, es, s')
    ensures StreamInv(s')
    decreases |es|
  {
    if es != [] {
      StepStream(s, es[0]);
      RunStream(Next(s, es[0]), es[1..], s');
    }
  }

  /** In every reachable state the bytes read so far are a prefix of the bytes given to
      addBuffer, and every acknowledged byte is either read already or next to be read. */
  lemma StreamDelivery(size: nat, mss: nat, es: seq<Event>, s: System)
    requires size > 0 && mss > 0 && Run(Start(true, size, mss), es, s)
    ensures Inv(s) && s.stream && s.read <= Given(s.messages)
    ensures s.read + Stream(s.rcv) == Payload(s.log[..AckPoint(s)])
    ensures Payload(s.log) == Given(s.messages)
  {
    StartInv(true, size, mss);
    RunStream(Start(true, size, mss), es, s);
    PayloadSplit(s.log, AckPoint(s));
  }
}
