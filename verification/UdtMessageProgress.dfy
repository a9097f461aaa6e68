/** Progress in message mode: as long as nothing has been given up, a run can go on until every message
    has been delivered, provided each fits the receiving buffer (src/udt/newlib/buffer.cpp). */
module UdtMessageProgress {
  import opened Prelude
  import opened UdtPackets
  import opened UdtNumbers
  import opened UdtSender
  import opened UdtWindow
  import opened UdtScan
  import opened UdtTransfer
  import opened UdtMessageMode
  import opened UdtProgress
  import UdtOversize
  import UdtExpiry

  /** Every message has fewer packets than the buffer has slots. */
  ghost predicate Fitting(log: seq<Packet>, size: nat) {
    forall a: nat, b: nat :: Whole(log, a, b) ==> b - a < size
  }

  /** The packets not delivered yet. */
  ghost function Left(log: seq<Packet>, ds: seq<Delivery>): set<nat> {
    set k: nat | k < |log| && !Covered(ds, k)
  }

  lemma LeftLess(log: seq<Packet>, gone: set<nat>, ds: seq<Delivery>, d: Delivery)
    requires GoodHistory(log, gone, ds + [d])
    ensures |Left(log, ds + [d])| < |Left(log, ds)|
  {
    var es := ds + [d];
    assert es[|ds|] == d && GoodDelivery(log, d);
    forall k: nat
      ensures Covered(es, k) <==> Covered(ds, k) || d.start <= k < d.end
    {
      CoveredMore(ds, d, k);
    }
    NotYet(log, gone, ds, d);
    assert d.start in Left(log, ds) && d.start !in Left(log, es);
    Smaller(Left(log, es), Left(log, ds), d.start);
  }

  lemma NotYet(log: seq<Packet>, gone: set<nat>, ds: seq<Delivery>, d: Delivery)
    requires GoodHistory(log, gone, ds + [d])
    ensures d.start < |log| && !Covered(ds, d.start)
  {
    var es := ds + [d];
    assert es[|ds|] == d && GoodDelivery(log, es[|ds|]);
    forall i | 0 <= i < |ds|
      ensures !(ds[i].start <= d.start < ds[i].end)
    {
      assert es[i] == ds[i] && UdtMessageMode.Apart(es[i], es[|ds|]);
    }
  }

  lemma Smaller(a: set<nat>, b: set<nat>, x: nat)
    requires a <= b && x in b && x !in a
    ensures |a| < |b|
  {
    assert a <= b - {x};
    SubsetSize(a, b - {x});
  }

  lemma {:induction false} SubsetSize(a: set<nat>, b: set<nat>)
    requires a <= b
    ensures |a| <= |b|
    decreases |a|
  {
    if a != {} {
      var x :| x in a;
      SubsetSize(a - {x}, b - {x});
    }
  }

  // ---- When readMsg has nothing acknowledged to deliver ----

  /** The acknowledged part is a beginning of one message, or empty. */
  ghost predicate Partial(w: Window) {
    && w.acked <= |w.slots|
    && (forall j :: 0 <= j < w.acked ==> Unread(w.slots[j]) && !Ends(w.slots[j].value.packet))
    && (w.acked > 0 ==> Begins(w.slots[0].value.packet))
  }

  lemma NotFoundPartial(w: Window)
    requires ValidWindow(w) && Scannable(w) && WellBounded(w) && !Scan(w).1.Found?
    ensures Partial(Scan(w).0)
  {
    var k := ScanMoves(w);
    var (w', r) := Scan(w);
    if w.acked > 0 || w.maxPos > 0 {
      ScanIsFind(w);
      if w'.acked > 0 {
        var e := LookAheadStops(w', 0);
        if e < w'.acked {
          FindComplete(w', 0, None, 0, e);
        }
      }
    }
  }

  lemma ScanIsFind(w: Window)
    requires ValidWindow(w) && Scannable(w) && WellBounded(w) && (w.acked > 0 || w.maxPos > 0)
    ensures var w' := Scan(w).0; Scannable(w') && (w'.acked > 0 ==> GoodHead(w')) && Scan(w).1 == Find(w', 0, None)
  {
    var k := SkipShifts(w);
  }

  // ---- Reading out ----

  lemma ReadsOne(s: System, len: nat) returns (t: System)
    requires MessageInv(s)
    ensures Leads(s, Event.ReadMsg(len), t) && MessageInv(t) && Same(s, t) && t.gone == s.gone
    ensures AckPoint(t) == AckPoint(s) && t.deliveries == s.deliveries + Delivered(s.rcv, len)
    ensures t.rcv == UdtScan.ReadMsg(s.rcv, len).0
  {
    hide Mirrors, Tracks, GoodHistory, UdtScan.ReadMsg, Delivered, LogOf, Bounded, WellBounded, InNet, Forgets;
    ReadMsgMessage(s, len);
    ReadMsgKeeps(s.rcv, len, s.gone);
    t := Next(s, Event.ReadMsg(len));
  }

  lemma ReadEnds(w: Window, len: nat)
    requires ValidWindow(w) && Scannable(w) && WellBounded(w) && !Scan(w).1.Found?
    ensures Partial(UdtScan.ReadMsg(w, len).0) && Delivered(w, len) == []
  {
    NotFoundPartial(w);
    ScanPresent(w);
    NothingTaken(Scan(w).0, Scan(w).1, len);
  }

  /** Calling readMsg until it finds nothing leaves at most the beginning of one message. */
  lemma {:induction false} ReadsOut(s: System, len: nat) returns (es: seq<Event>, t: System)
    requires MessageInv(s)
    ensures Run(s, es, t) && MessageInv(t) && Same(s, t) && t.gone == s.gone
    ensures AckPoint(t) == AckPoint(s) && Partial(t.rcv)
    decreases |Left(s.log, s.deliveries)|
  {
    var read := Event.ReadMsg(len);
    var u := ReadsOne(s, len);
    if Scan(s.rcv).1.Found? {
      FoundIsLess(s, u, len);
      hide MessageInv, Left, Partial, Leads, Run;
      var rest;
      rest, t := ReadsOut(u, len);
      RunCons(s, read, u, rest, t);
      es := [read] + rest;
    } else {
      ReadEnds(s.rcv, len);
      t := u;
      RunNone(t);
      hide MessageInv, Left, Partial, Leads, Run;
      RunCons(s, read, t, [], t);
      es := [read] + [];
    }
  }

  lemma FoundIsLess(s: System, u: System, len: nat)
    requires MessageInv(s) && MessageInv(u) && u.log == s.log && Scan(s.rcv).1.Found?
    requires u.deliveries == s.deliveries + Delivered(s.rcv, len)
    ensures |Left(u.log, u.deliveries)| < |Left(s.log, s.deliveries)|
  {
    hide Left, UdtScan.ReadMsg;
    LeftLess(s.log, u.gone, s.deliveries, Delivered(s.rcv, len)[0]);
  }

  // ---- Room for one packet more ----

  lemma {:induction false} NextEnd(log: seq<Packet>, k: nat) returns (e: nat)
    requires Bounded(log) && k < |log|
    ensures k <= e < |log| && Ends(log[e]) && forall x :: k <= x < e ==> !Ends(log[x])
    decreases |log| - k
  {
    e := k;
    if !Ends(log[k]) {
      e := NextEnd(log, k + 1);
    }
  }

  lemma RoomForOne(w: Window, log: seq<Packet>)
    requires ValidWindow(w) && Partial(w) && Mirrors(w, log) && Bounded(log) && Fitting(log, |w.slots|)
    requires w.base + w.acked < |log|
    ensures AvailSize(w) > 0
  {
    var first := if w.acked == 0 then 0 else w.base;
    if w.acked > 0 {
      assert w.slots[0].Some?;
    }
    var e := NextEnd(log, if w.acked == 0 then 0 else w.base + w.acked);
    forall x | first <= x < e
      ensures !Ends(log[x])
    {
      assert w.base <= x < w.base + w.acked ==> Unread(w.slots[x - w.base]);
    }
    assert Whole(log, first, e + 1);
  }

  lemma PartialGoesOn(w: Window, log: seq<Packet>)
    requires ValidWindow(w) && Partial(w) && Mirrors(w, log) && Bounded(log) && w.acked > 0
    ensures w.base + w.acked < |log|
  {
    assert Unread(w.slots[w.acked - 1]) && !Ends(log[w.base + w.acked - 1]);
  }

  // ---- Everything is delivered ----

  lemma {:induction false} DeliversOn(s: System, len: nat) returns (es: seq<Event>, t: System)
    requires MessageInv(s) && Fitting(s.log, |s.rcv.slots|)
    ensures Run(s, es, t) && MessageInv(t) && Same(s, t) && t.gone == s.gone
    ensures t.rcv.base == |t.log|
    decreases |s.log| - AckPoint(s)
  {
    var read, u := ReadsOut(s, len);
    MirrorsAll(u.rcv, u.log, SentEnd(u));
    if AckPoint(u) == |u.log| {
      if u.rcv.acked > 0 {
        PartialGoesOn(u.rcv, u.log);
      }
      es, t := read, u;
    } else {
      RoomForOne(u.rcv, u.log);
      var step, v := OnePacket(u);
      RunMessage(u, step, v);
      hide MessageInv, Inv, Run, ClearRun, Fitting, Partial;
      var rest;
      rest, t := DeliversOn(v, len);
      RunConcat(u, step, v, rest, t);
      RunConcat(s, read, u, step + rest, t);
      es := read + (step + rest);
    }
  }

  /** Every message that has a packet has been delivered. */
  ghost predicate AllThere(s: System, mss: nat)
    requires mss > 0
  {
    forall m :: 0 <= m < |s.messages| && s.messages[m].data != [] ==> HasCome(s, mss, m)
  }

  ghost predicate HasCome(s: System, mss: nat, m: nat)
    requires mss > 0
  {
    exists i :: 0 <= i < |s.deliveries| && Carries(s.messages, mss, m, s.deliveries[i].start, s.deliveries[i].end)
  }

  lemma DeliveredAt(s: System, mss: nat, m: nat)
    requires mss > 0 && MessageInv(s) && s.snd.mss == mss && s.gone == {} && s.rcv.base == |s.log|
    requires m < |s.messages| && s.messages[m].data != []
    ensures HasCome(s, mss, m)
  {
    var k := FirstOf(s.messages, mss, m);
    LogHolds(s.messages, mss, m);
    LastInOrder(s.messages, mss, m, k, FirstOf(s.messages, mss, m + 1));
    assert Settled(s.log, s.gone, s.deliveries, k);
    UdtExpiry.NotSpoiled(s.log, k);
    hide LogOf, FirstOf, Chop, Carries, Inv;
    var i :| 0 <= i < |s.deliveries| && s.deliveries[i].start <= k < s.deliveries[i].end;
    assert GoodDelivery(s.log, s.deliveries[i]);
    CoversMessage(s.messages, mss, m, s.deliveries[i]);
  }

  /** Some way of going on, numbered as cut, delivers every message given so far. */
  ghost predicate CanDeliverAll(s: System, mss: nat)
    requires mss > 0
  {
    exists es, t :: Run(s, es, t) && t.next == SentEnd(t) && t.messages == s.messages && AllThere(t, mss)
  }

  function PacketCount(ms: seq<Message>, mss: nat, m: nat): nat
    requires mss > 0 && m < |ms|
  {
    |Chop(ms[m].data, mss, NoAt(m), ms[m].order)|
  }

  /** Every message has fewer packets than this. */
  ghost predicate Below(ms: seq<Message>, mss: nat, size: nat)
    requires mss > 0
  {
    forall m :: 0 <= m < |ms| && ms[m].data != [] ==> PacketCount(ms, mss, m) < size
  }

  lemma BelowFits(ms: seq<Message>, mss: nat, size: nat)
    requires mss > 0 && Below(ms, mss, size)
    ensures Fitting(LogOf(ms, mss), size)
  {
    hide LogOf, Whole;
    forall a: nat, b: nat | Whole(LogOf(ms, mss), a, b)
      ensures b - a < size
    {
      var m := WholeIsMessage(ms, mss, a, b);
      assert PacketCount(ms, mss, m) < size;
    }
  }

  /** From every reachable state of message mode in which no packet is gone, whatever has been lost:
      every message can still be delivered exactly when each has fewer packets than the receiving
      buffer has slots. */
  lemma CanDeliverAllIff(size: nat, mss: nat, es: seq<Event>, s: System)
    requires size > 0 && mss > 0 && Run(Start(false, size, mss), es, s) && s.next == SentEnd(s) && s.gone == {}
    ensures CanDeliverAll(s, mss) <==> Below(s.messages, mss, size)
  {
    hide Run, LogOf, MessageInv, Fitting;
    if Below(s.messages, mss, size) {
      RunFromStart(size, mss, es, s);
      SlotsStay(size, mss, es, s);
      BelowFits(s.messages, mss, size);
      CompletesAll(s, mss, size);
    }
    if CanDeliverAll(s, mss) {
      var more, t :| Run(s, more, t) && t.next == SentEnd(t) && t.messages == s.messages && AllThere(t, mss);
      RunConcat(Start(false, size, mss), es, s, more, t);
      ThereFits(size, mss, es + more, t);
    }
  }

  lemma SlotsStay(size: nat, mss: nat, es: seq<Event>, s: System)
    requires size > 0 && mss > 0 && Run(Start(false, size, mss), es, s) && s.next == SentEnd(s)
    ensures |s.rcv.slots| == size
  {
    StartInv(false, size, mss);
    InStepIff(Start(false, size, mss), es, s);
    UdtOversize.RunFits(Start(false, size, mss), es, s, size);
  }

  lemma CompletesAll(s: System, mss: nat, size: nat)
    requires mss > 0 && MessageInv(s) && s.snd.mss == mss && s.gone == {} && |s.rcv.slots| == size && Fitting(s.log, size)
    ensures CanDeliverAll(s, mss)
  {
    var es, t := DeliversOn(s, 0);
    InStepIff(s, es, t);
    RunMessage(s, es, t);
    assert t.next == SentEnd(t);
    hide Run, ClearRun, MessageInv, HasCome, Fitting;
    forall m | 0 <= m < |t.messages| && t.messages[m].data != []
      ensures HasCome(t, mss, m)
    {
      DeliveredAt(t, mss, m);
    }
  }

  lemma ThereFits(size: nat, mss: nat, es: seq<Event>, t: System)
    requires size > 0 && mss > 0 && Run(Start(false, size, mss), es, t) && t.next == SentEnd(t) && AllThere(t, mss)
    ensures Below(t.messages, mss, size)
  {
    hide Run, Carries;
    forall m | 0 <= m < |t.messages| && t.messages[m].data != []
      ensures PacketCount(t.messages, mss, m) < size
    {
      assert HasCome(t, mss, m);
      var i :| 0 <= i < |t.deliveries| && Carries(t.messages, mss, m, t.deliveries[i].start, t.deliveries[i].end);
      UdtOversize.DeliveredFits(size, mss, es, t, i, m);
    }
  }
}
