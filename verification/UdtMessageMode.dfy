/** Message mode end to end: every message is delivered whole, at most once, and an ordered one
    only after everything sent before it; nothing is discarded undelivered, except what a drop
    request has touched. */
module UdtMessageMode {
  import opened Prelude
  import opened UdtPackets
  import opened UdtNumbers
  import opened UdtSender
  import opened UdtWindow
  import opened UdtScan
  import opened UdtTransfer

  /** The packets of these messages, in the order of sending. */
  function LogOf(ms: seq<Message>, mss: nat): seq<Packet>
    requires mss > 0
  {
    if ms == [] then []
    else
      var n := |ms| - 1;
      LogOf(ms[..n], mss) + Chop(ms[n].data, mss, NoAt(n), ms[n].order)
  }

  /** Packets a..b, b excluded, are one complete message. */
  ghost predicate Whole(log: seq<Packet>, a: nat, b: nat) {
    && a < b <= |log|
    && Begins(log[a]) && Ends(log[b - 1])
    && forall k :: a <= k < b - 1 ==> !Ends(log[k])
  }

  ghost predicate Covered(ds: seq<Delivery>, k: nat) {
    exists i :: 0 <= i < |ds| && ds[i].start <= k < ds[i].end
  }

  ghost predicate Apart(d: Delivery, e: Delivery) {
    d.end <= e.start || e.end <= d.start
  }

  ghost predicate GoodDelivery(log: seq<Packet>, d: Delivery) {
    Whole(log, d.start, d.end) && d.bytes == Taken(Payload(log[d.start..d.end]), d.len)
  }

  /** Packets i and j belong to the same message. */
  ghost predicate Together(log: seq<Packet>, i: nat, j: nat) {
    && i < |log| && j < |log|
    && forall x :: i <= x < j || j <= x < i ==> !Ends(log[x])
  }

  /** The message of packet k has lost a packet to a drop request. */
  ghost predicate Spoiled(log: seq<Packet>, gone: set<nat>, k: nat) {
    exists n :: n in gone && Together(log, n, k)
  }

  /** Deliveries are whole messages, none twice, and ordered ones follow all that came before. */
  ghost predicate GoodHistory(log: seq<Packet>, gone: set<nat>, ds: seq<Delivery>) {
    && (forall i :: 0 <= i < |ds| ==> GoodDelivery(log, ds[i]))
    && (forall i, j :: 0 <= i < j < |ds| ==> Apart(ds[i], ds[j]))
    && (forall i, k: nat {:trigger Settled(log, gone, ds[..i], k)} ::
          0 <= i < |ds| && InOrder(log[ds[i].end - 1]) && k < ds[i].start ==> Settled(log, gone, ds[..i], k))
  }

  /** Packet k has been delivered, or its message is spoiled. */
  ghost predicate Settled(log: seq<Packet>, gone: set<nat>, ds: seq<Delivery>, k: nat) {
    Covered(ds, k) || Spoiled(log, gone, k)
  }

  /** The packet of slot j has been delivered. */
  ghost predicate Done(w: Window, ds: seq<Delivery>, j: nat) {
    Covered(ds, w.base + j)
  }

  /** Everything before the window is settled; in it, no delivered packet can be read again, and only
      those that are gone can be struck out. */
  ghost predicate Tracks(w: Window, log: seq<Packet>, gone: set<nat>, ds: seq<Delivery>) {
    && (forall k: nat :: k < w.base ==> Settled(log, gone, ds, k))
    && Flags(w, gone, ds)
  }

  ghost predicate Flags(w: Window, gone: set<nat>, ds: seq<Delivery>) {
    && (forall j {:trigger w.slots[j]} :: 0 <= j < |w.slots| && w.slots[j].Some? ==>
          && (w.slots[j].value.flag == 1 ==> !Done(w, ds, j))
          && (w.slots[j].value.flag == 2 ==> Done(w, ds, j))
          && (w.slots[j].value.flag == 3 ==> w.base + j in gone))
    && (forall j: nat {:trigger Done(w, ds, j)} :: Done(w, ds, j) ==> j < |w.slots| && w.slots[j].Some?)
  }

  ghost predicate MessageInv(s: System) {
    && Inv(s) && !s.stream
    && GoodHistory(s.log, s.gone, s.deliveries) && Tracks(s.rcv, s.log, s.gone, s.deliveries)
    && s.log == LogOf(s.messages, s.snd.mss) && s.snd.nextMsgNo == NoAt(|s.messages|)
  }

  /** A message is delivered in full or not at all. */
  lemma CoverSpreads(log: seq<Packet>, gone: set<nat>, ds: seq<Delivery>, k: nat)
    requires Bounded(log) && GoodHistory(log, gone, ds) && k + 1 < |log|
    ensures !Ends(log[k]) ==> (Covered(ds, k) <==> Covered(ds, k + 1))
  {
  }

  /** A message is spoiled as a whole. */
  lemma SpoilSpreads(log: seq<Packet>, gone: set<nat>, k: nat)
    requires k + 1 < |log| && !Ends(log[k])
    ensures Spoiled(log, gone, k) <==> Spoiled(log, gone, k + 1)
  {
    if Spoiled(log, gone, k) {
      var n :| n in gone && Together(log, n, k);
      assert Together(log, n, k + 1);
    }
    if Spoiled(log, gone, k + 1) {
      var n :| n in gone && Together(log, n, k + 1);
      assert Together(log, n, k);
    }
  }

  lemma UnspoiledKept(log: seq<Packet>, gone: set<nat>, k: nat)
    requires k < |log| && !Spoiled(log, gone, k)
    ensures k !in gone
  {
    assert Together(log, k, k);
  }

  lemma {:induction false} UnsettledAhead(w: Window, i: nat, log: seq<Packet>, gone: set<nat>, ds: seq<Delivery>)
    requires ValidWindow(w) && Excused(false, w, gone) && Mirrors(w, log) && Flags(w, gone, ds)
    requires Bounded(log) && GoodHistory(log, gone, ds) && w.base + w.acked <= |log|
    requires i < w.acked && !Settled(log, gone, ds, w.base + i)
    ensures LookAhead(w, i)
    decreases w.acked - i
  {
    hide GoodHistory, Bounded, Spoiled;
    UnspoiledKept(log, gone, w.base + i);
    assert w.slots[i].Some? && !Done(w, ds, i) && Unread(w.slots[i]);
    hide Flags, Covered;
    if !Ends(w.slots[i].value.packet) && i + 1 < w.acked {
      CoverSpreads(log, gone, ds, w.base + i);
      SpoilSpreads(log, gone, w.base + i);
      UnsettledAhead(w, i + 1, log, gone, ds);
    }
  }

  lemma FirstUnsettledBegins(log: seq<Packet>, gone: set<nat>, ds: seq<Delivery>, k: nat)
    requires Bounded(log) && GoodHistory(log, gone, ds) && k < |log| && !Settled(log, gone, ds, k)
    requires k > 0 ==> Settled(log, gone, ds, k - 1)
    ensures Begins(log[k])
  {
    if k > 0 && !Ends(log[k - 1]) {
      CoverSpreads(log, gone, ds, k - 1);
      SpoilSpreads(log, gone, k - 1);
    }
  }

  /** The first pass of scanMsg frees only packets already delivered or of spoiled messages. */
  lemma HeadSettled(w: Window, log: seq<Packet>, gone: set<nat>, ds: seq<Delivery>)
    requires ValidWindow(w) && Excused(false, w, gone) && Mirrors(w, log) && Tracks(w, log, gone, ds)
    requires Bounded(log) && GoodHistory(log, gone, ds) && w.base + w.acked <= |log|
    requires w.acked > 0 && !GoodHead(w)
    ensures Settled(log, gone, ds, w.base)
  {
    if !Settled(log, gone, ds, w.base) {
      UnspoiledKept(log, gone, w.base);
      assert w.slots[0].Some?;
      FirstUnsettledBegins(log, gone, ds, w.base);
      UnsettledAhead(w, 0, log, gone, ds);
    }
  }

  lemma DropTracks(w: Window, log: seq<Packet>, gone: set<nat>, ds: seq<Delivery>)
    requires 0 < w.acked <= |w.slots| && Tracks(w, log, gone, ds) && Settled(log, gone, ds, w.base)
    ensures Tracks(DropFront(w), log, gone, ds)
  {
    hide Settled;
    DropFlags(w, gone, ds);
  }

  lemma DropFlags(w: Window, gone: set<nat>, ds: seq<Delivery>)
    requires 0 < w.acked <= |w.slots| && Flags(w, gone, ds)
    ensures Flags(DropFront(w), gone, ds)
  {
    var w' := DropFront(w);
    forall j: nat
      ensures Done(w', ds, j) == Done(w, ds, j + 1)
    {
    }
    forall j: nat | Done(w', ds, j)
      ensures j < |w'.slots| && w'.slots[j].Some?
    {
      assert Done(w, ds, j + 1);
    }
  }

  lemma DropMirrors(w: Window, log: seq<Packet>, gone: set<nat>)
    requires ValidWindow(w) && Excused(false, w, gone) && Mirrors(w, log) && w.acked > 0
    ensures ValidWindow(DropFront(w)) && Excused(false, DropFront(w), gone) && Mirrors(DropFront(w), log)
  {
  }

  lemma {:induction false} SkipTracks(w: Window, log: seq<Packet>, gone: set<nat>, ds: seq<Delivery>)
    requires ValidWindow(w) && Excused(false, w, gone) && Mirrors(w, log) && Tracks(w, log, gone, ds)
    requires Bounded(log) && GoodHistory(log, gone, ds) && w.base + w.acked <= |log|
    ensures Mirrors(SkipBad(w), log) && Tracks(SkipBad(w), log, gone, ds)
    decreases w.acked
  {
    if w.acked > 0 && !GoodHead(w) {
      hide Excused, Mirrors, Tracks, GoodHistory, Settled, GoodHead, Bounded;
      HeadSettled(w, log, gone, ds);
      DropTracks(w, log, gone, ds);
      DropMirrors(w, log, gone);
      SkipTracks(DropFront(w), log, gone, ds);
    }
  }

  lemma MirrorGather(w: Window, p: nat, q: nat, log: seq<Packet>)
    requires p <= q <= |w.slots| && Mirrors(w, log) && forall j :: p <= j < q ==> w.slots[j].Some?
    requires w.base + q <= |log|
    ensures Gather(w, p, q) == Payload(log[w.base + p..w.base + q])
  {
    assert PacketsOf(w.slots[p..q]) == log[w.base + p..w.base + q];
  }

  /** The delivery that taking a found message out of the window makes. */
  function DeliveryOf(w: Window, r: ScanResult, len: nat, bytes: seq<byte>): Delivery
    requires r.Found?
  {
    Delivery(w.base + r.p, w.base + r.q + 1, len, bytes)
  }

  lemma FoundIsGood(w: Window, r: ScanResult, len: nat, log: seq<Packet>)
    requires ValidWindow(w) && Mirrors(w, log) && r.Found? && Present(w, r) && UnreadMessage(w, r.p, r.q)
    ensures GoodDelivery(log, DeliveryOf(w, r, len, Take(w, r, len).1))
  {
    assert w.slots[r.q].Some?;
    hide Gather, Payload, Taken, Mark, Drop, Whole, ValidWindow;
    MirrorGather(w, r.p, r.q + 1, log);
    MirrorWhole(w, r.p, r.q, log);
  }

  lemma MirrorWhole(w: Window, p: nat, q: nat, log: seq<Packet>)
    requires Mirrors(w, log) && UnreadMessage(w, p, q)
    ensures Whole(log, w.base + p, w.base + q + 1)
  {
    assert Unread(w.slots[p]) && Unread(w.slots[q]);
    forall k | w.base + p <= k < w.base + q
      ensures !Ends(log[k])
    {
      assert Unread(w.slots[k - w.base]);
    }
  }

  lemma FoundIsNew(w: Window, r: ScanResult, log: seq<Packet>, gone: set<nat>, ds: seq<Delivery>, i: nat, len: nat, bytes: seq<byte>)
    requires Flags(w, gone, ds) && r.Found? && UnreadMessage(w, r.p, r.q) && GoodHistory(log, gone, ds) && i < |ds|
    ensures Apart(ds[i], DeliveryOf(w, r, len, bytes))
  {
    var a, b := w.base + r.p, w.base + r.q + 1;
    assert GoodDelivery(log, ds[i]);
    var k := if a < ds[i].start then ds[i].start else a;
    if a <= k < b && k < ds[i].end {
      assert Unread(w.slots[k - w.base]) && Done(w, ds, k - w.base);
    }
  }

  lemma CoveredMore(ds: seq<Delivery>, d: Delivery, k: nat)
    ensures Covered(ds + [d], k) <==> Covered(ds, k) || d.start <= k < d.end
  {
    var es := ds + [d];
    if Covered(ds, k) {
      var i :| 0 <= i < |ds| && ds[i].start <= k < ds[i].end;
      assert es[i] == ds[i];
    }
    assert es[|ds|] == d;
  }

  lemma HistoryGrows(log: seq<Packet>, gone: set<nat>, ds: seq<Delivery>, d: Delivery)
    requires GoodHistory(log, gone, ds) && GoodDelivery(log, d)
    requires forall i :: 0 <= i < |ds| ==> Apart(ds[i], d)
    requires InOrder(log[d.end - 1]) ==> forall k: nat :: k < d.start ==> Settled(log, gone, ds, k)
    ensures GoodHistory(log, gone, ds + [d])
  {
    var es := ds + [d];
    hide Settled;
    forall i, k: nat | 0 <= i < |es| && InOrder(log[es[i].end - 1]) && k < es[i].start
      ensures Settled(log, gone, es[..i], k)
    {
      if i < |ds| {
        assert es[..i] == ds[..i] && Settled(log, gone, ds[..i], k);
      } else {
        assert es[..i] == ds;
      }
    }
  }

  /** Settled packets stay settled. */
  lemma SettledMore(log: seq<Packet>, gone: set<nat>, ds: seq<Delivery>, d: Delivery, k: nat)
    requires Settled(log, gone, ds, k) || d.start <= k < d.end
    ensures Settled(log, gone, ds + [d], k)
  {
    CoveredMore(ds, d, k);
  }

  lemma TakeTracks(w: Window, r: ScanResult, len: nat, log: seq<Packet>, gone: set<nat>, ds: seq<Delivery>)
    requires ValidWindow(w) && Scannable(w) && Takeable(w, r) && r.Found?
    requires Tracks(w, log, gone, ds) && UnreadMessage(w, r.p, r.q)
    ensures Tracks(Take(w, r, len).0, log, gone, ds + [DeliveryOf(w, r, len, Take(w, r, len).1)])
  {
    var d := DeliveryOf(w, r, len, Take(w, r, len).1);
    var w' := Take(w, r, len).0;
    hide Settled, Flags;
    forall k: nat | k < w'.base
      ensures Settled(log, gone, ds + [d], k)
    {
      SettledMore(log, gone, ds, d, k);
    }
    if r.passack {
      MarkFlags(w, r.p, r.q, gone, ds, d);
    } else {
      FreeFlags(w, r.q, gone, ds, d);
    }
  }

  lemma MarkFlags(w: Window, p: nat, q: nat, gone: set<nat>, ds: seq<Delivery>, d: Delivery)
    requires p <= q < |w.slots| && Flags(w, gone, ds) && forall j :: p <= j <= q ==> w.slots[j].Some?
    requires d.start == w.base + p && d.end == w.base + q + 1
    ensures Flags(Mark(w, p, q), gone, ds + [d])
  {
    var w' := Mark(w, p, q);
    forall j: nat
      ensures Done(w', ds + [d], j) <==> Done(w, ds, j) || p <= j <= q
    {
      CoveredMore(ds, d, w.base + j);
    }
  }

  lemma FreeFlags(w: Window, q: nat, gone: set<nat>, ds: seq<Delivery>, d: Delivery)
    requires q < w.acked <= |w.slots| && Flags(w, gone, ds)
    requires d.start == w.base && d.end == w.base + q + 1
    ensures Flags(UdtScan.Drop(w, q + 1), gone, ds + [d])
  {
    var w' := UdtScan.Drop(w, q + 1);
    forall j: nat
      ensures Done(w', ds + [d], j) <==> Done(w, ds, j + (q + 1))
    {
      CoveredMore(ds, d, w'.base + j);
    }
  }

  lemma ReadMsgIsTake(w: Window, len: nat)
    requires ValidWindow(w) && Scannable(w) && WellBounded(w)
    ensures ValidWindow(Scan(w).0) && Scannable(Scan(w).0) && Takeable(Scan(w).0, Scan(w).1)
    ensures UdtScan.ReadMsg(w, len) == Take(Scan(w).0, Scan(w).1, len)
    ensures var (w', r) := Scan(w);
            Delivered(w, len) == if r.Found? then [DeliveryOf(w', r, len, Take(w', r, len).1)] else []
  {
    ScanTakeable(w);
  }

  /** One call of readMsg, on a window that tracks a good history. */
  lemma ReadMsgTracks(w: Window, len: nat, log: seq<Packet>, gone: set<nat>, ds: seq<Delivery>)
    requires ValidWindow(w) && Excused(false, w, gone) && Scannable(w) && WellBounded(w) && Mirrors(w, log)
    requires Bounded(log) && GoodHistory(log, gone, ds) && Tracks(w, log, gone, ds) && w.base + w.acked <= |log|
    ensures GoodHistory(log, gone, ds + Delivered(w, len))
    ensures Tracks(UdtScan.ReadMsg(w, len).0, log, gone, ds + Delivered(w, len))
  {
    ScanFinds(w);
    ReadMsgIsTake(w, len);
    SkipTracks(w, log, gone, ds);
    hide Tracks, GoodHistory, Mirrors, UdtScan.ReadMsg, Delivered, Take, Deliverable, Excused, Bounded, WellBounded;
    var (w', r) := Scan(w);
    if r.Found? {
      TakenTracks(w', r, len, log, gone, ds);
    } else {
      assert ds + [] == ds;
      NothingTaken(w', r, len);
    }
  }

  lemma NothingTaken(w: Window, r: ScanResult, len: nat)
    requires !r.Found? && Present(w, r)
    ensures Take(w, r, len).0 == w
  {
  }

  lemma TakenTracks(w: Window, r: ScanResult, len: nat, log: seq<Packet>, gone: set<nat>, ds: seq<Delivery>)
    requires ValidWindow(w) && Scannable(w) && Takeable(w, r) && Mirrors(w, log) && r.Found?
    requires Deliverable(w, r.p, r.q) && r.passack == (r.q >= w.acked)
    requires GoodHistory(log, gone, ds) && Tracks(w, log, gone, ds)
    ensures var d := DeliveryOf(w, r, len, Take(w, r, len).1);
            GoodHistory(log, gone, ds + [d]) && Tracks(Take(w, r, len).0, log, gone, ds + [d])
  {
    var d := DeliveryOf(w, r, len, Take(w, r, len).1);
    FoundIsGood(w, r, len, log);
    forall i | 0 <= i < |ds|
      ensures Apart(ds[i], d)
    {
      FoundIsNew(w, r, log, gone, ds, i, len, d.bytes);
    }
    assert w.slots[r.q].Some? && log[d.end - 1] == w.slots[r.q].value.packet;
    HistoryGrows(log, gone, ds, d);
    TakeTracks(w, r, len, log, gone, ds);
  }

  lemma MirrorsAll(w: Window, log: seq<Packet>, end: nat)
    requires end <= |log| && Mirrors(w, log[..end])
    ensures Mirrors(w, log)
  {
  }

  lemma ReadMsgMessage(s: System, len: nat)
    requires MessageInv(s) && Enabled(s, Event.ReadMsg(len))
    ensures MessageInv(Next(s, Event.ReadMsg(len)))
  {
    ReadMsgInv(s, len);
    MirrorsAll(s.rcv, s.log, SentEnd(s));
    hide Mirrors, Tracks, GoodHistory, UdtScan.ReadMsg, Delivered, LogOf, NoAt, Bounded;
    ReadMsgTracks(s.rcv, len, s.log, s.gone, s.deliveries);
  }

  lemma SendMessage(s: System, m: Message)
    requires MessageInv(s)
    ensures MessageInv(Next(s, Send(m)))
  {
    SendInv(s, m);
    assert forall n :: n in s.gone ==> n < |s.log|;
    var ps := Chop(m.data, s.snd.mss, s.snd.nextMsgNo, m.order);
    assert (s.messages + [m])[..|s.messages|] == s.messages;
    hide Inv, GoodHistory, Tracks;
    HistoryExtends(s.log, ps, s.gone, s.deliveries);
    TracksExtends(s.rcv, s.log, ps, s.gone, s.deliveries);
  }

  lemma SettledExtends(log: seq<Packet>, ps: seq<Packet>, gone: set<nat>, ds: seq<Delivery>, k: nat)
    requires Settled(log, gone, ds, k)
    ensures Settled(log + ps, gone, ds, k)
  {
    if Spoiled(log, gone, k) {
      var n :| n in gone && Together(log, n, k);
      assert Together(log + ps, n, k);
    }
  }

  lemma TracksExtends(w: Window, log: seq<Packet>, ps: seq<Packet>, gone: set<nat>, ds: seq<Delivery>)
    requires Tracks(w, log, gone, ds)
    ensures Tracks(w, log + ps, gone, ds)
  {
    hide Settled, Flags;
    forall k: nat | k < w.base
      ensures Settled(log + ps, gone, ds, k)
    {
      SettledExtends(log, ps, gone, ds, k);
    }
  }

  lemma HistoryExtends(log: seq<Packet>, ps: seq<Packet>, gone: set<nat>, ds: seq<Delivery>)
    requires GoodHistory(log, gone, ds)
    ensures GoodHistory(log + ps, gone, ds)
  {
    hide Settled;
    forall i | 0 <= i < |ds|
      ensures GoodDelivery(log + ps, ds[i]) && (log + ps)[ds[i].end - 1] == log[ds[i].end - 1]
    {
      assert GoodDelivery(log, ds[i]);
      assert (log + ps)[ds[i].start..ds[i].end] == log[ds[i].start..ds[i].end];
    }
    forall i, k: nat | 0 <= i < |ds| && InOrder((log + ps)[ds[i].end - 1]) && k < ds[i].start
      ensures Settled(log + ps, gone, ds[..i], k)
    {
      assert Settled(log, gone, ds[..i], k);
      SettledExtends(log, ps, gone, ds[..i], k);
    }
  }

  lemma ArriveMessage(s: System, no: nat, packet: Packet)
    requires MessageInv(s) && Enabled(s, Arrive(no, packet))
    ensures MessageInv(s.(rcv := Arrived(s.rcv, no, packet)))
  {
    ArriveInv(s, no, packet);
    ArrivedTracks(s.rcv, no, packet, s.log, s.gone, s.deliveries);
    hide Inv, GoodHistory, Tracks, LogOf, NoAt, Arrived;
  }

  lemma ArrivedTracks(w: Window, no: nat, packet: Packet, log: seq<Packet>, gone: set<nat>, ds: seq<Delivery>)
    requires ValidWindow(w) && Tracks(w, log, gone, ds)
    ensures Tracks(Arrived(w, no, packet), log, gone, ds)
  {
    hide Flags, AddData, ValidWindow, Settled;
    var offset := no - (w.base + w.acked);
    if 0 <= offset < AvailSize(w) {
      AddDataFlags(w, packet, offset, gone, ds);
    }
  }

  lemma AddDataFlags(w: Window, p: Packet, offset: nat, gone: set<nat>, ds: seq<Delivery>)
    requires ValidWindow(w) && offset < AvailSize(w) && Flags(w, gone, ds)
    ensures Flags(AddData(w, p, offset), gone, ds) && AddData(w, p, offset).base == w.base
  {
    var w' := AddData(w, p, offset);
    forall j: nat
      ensures Done(w', ds, j) == Done(w, ds, j)
    {
    }
  }

  // ---- Drop requests ----

  /** More packets gone settle no less. */
  lemma SettledGone(log: seq<Packet>, gone: set<nat>, gone': set<nat>, ds: seq<Delivery>, k: nat)
    requires gone <= gone' && Settled(log, gone, ds, k)
    ensures Settled(log, gone', ds, k)
  {
    if Spoiled(log, gone, k) {
      var n :| n in gone && Together(log, n, k);
      assert n in gone';
    }
  }

  lemma HistoryGone(log: seq<Packet>, gone: set<nat>, gone': set<nat>, ds: seq<Delivery>)
    requires gone <= gone' && GoodHistory(log, gone, ds)
    ensures GoodHistory(log, gone', ds)
  {
    hide Settled;
    forall i, k: nat | 0 <= i < |ds| && InOrder(log[ds[i].end - 1]) && k < ds[i].start
      ensures Settled(log, gone', ds[..i], k)
    {
      assert Settled(log, gone, ds[..i], k);
      SettledGone(log, gone, gone', ds[..i], k);
    }
  }

  lemma StrikeFlags(w: Window, no: bv32, gone: set<nat>, gone': set<nat>, ds: seq<Delivery>)
    requires gone <= gone' && StruckOut(w, no) <= gone' && Flags(w, gone, ds)
    ensures Flags(DropMsg(w, no), gone', ds)
  {
    var w' := DropMsg(w, no);
    forall j: nat
      ensures Done(w', ds, j) == Done(w, ds, j)
    {
    }
    forall j | 0 <= j < |w.slots| && w.slots[j].Some? && w'.slots[j] != w.slots[j]
      ensures w.base + j in gone'
    {
      assert w.base + j in StruckOut(w, no);
    }
  }

  lemma StrikeTracks(w: Window, no: bv32, log: seq<Packet>, gone: set<nat>, gone': set<nat>, ds: seq<Delivery>)
    requires gone <= gone' && StruckOut(w, no) <= gone' && Tracks(w, log, gone, ds)
    ensures Tracks(DropMsg(w, no), log, gone', ds)
  {
    hide Settled, Flags, StruckOut;
    StrikeFlags(w, no, gone, gone', ds);
    forall k: nat | k < w.base
      ensures Settled(log, gone', ds, k)
    {
      SettledGone(log, gone, gone', ds, k);
    }
  }

  lemma DropMessage(s: System, drop: DropRequest)
    requires MessageInv(s) && Enabled(s, DropArrives(drop))
    ensures MessageInv(Next(s, DropArrives(drop)))
  {
    DropInv(s, drop);
    hide Inv, GoodHistory, Tracks, LogOf, NoAt, StruckOut, Range, DropMsg;
    var gone' := s.gone + Range(drop.first, drop.last) + StruckOut(s.rcv, drop.no);
    HistoryGone(s.log, s.gone, gone', s.deliveries);
    StrikeTracks(s.rcv, drop.no, s.log, s.gone, gone', s.deliveries);
  }

  // ---- Every step ----

  lemma QuietMessage(s: System, e: Event)
    requires MessageInv(s) && Enabled(s, e) && Clear(s, e)
    requires e.Transmit? || e.Retransmit? || e.Expire? || e.Acknowledge? || e.AckArrives?
    ensures MessageInv(Next(s, e))
  {
    StepInv(s, e);
    hide Inv, GoodHistory, Tracks, LogOf, NoAt;
    TracksSlots(s.rcv, Next(s, e).rcv, s.log, s.gone, s.deliveries);
  }

  lemma TracksSlots(w: Window, w': Window, log: seq<Packet>, gone: set<nat>, ds: seq<Delivery>)
    requires Tracks(w, log, gone, ds) && w'.base == w.base && w'.slots == w.slots
    ensures Tracks(w', log, gone, ds)
  {
    assert forall j: nat :: Done(w', ds, j) == Done(w, ds, j);
  }

  lemma StepMessage(s: System, e: Event)
    requires MessageInv(s) && Enabled(s, e) && Clear(s, e)
    ensures MessageInv(Next(s, e)) && Next(s, e).snd.mss == s.snd.mss
  {
    assert !s.stream;
    hide MessageInv, Inv, AckData, Arrived, Chop, UdtScan.ReadMsg, DropMsg, StruckOut, Range;
    match e
    case Send(m) => SendMessage(s, m);
    case Arrive(no, packet) => ArriveMessage(s, no, packet);
    case DropArrives(drop) => DropMessage(s, drop);
    case Read(_) =>
    case ReadMsg(len) => ReadMsgMessage(s, len);
    case _ => QuietMessage(s, e);
  }

  lemma {:induction false} RunMessage(s: System, es: seq<Event>, s': System)
    requires MessageInv(s) && Run(s, es, s') && ClearRun(s, es, s')
    ensures MessageInv(s') && s'.snd.mss == s.snd.mss
    decreases |es|
  {
    if es != [] {
      StepMessage(s, es[0]);
      RunMessage(Next(s, es[0]), es[1..], s');
    }
  }

  /** The first packet of message m. */
  function FirstOf(ms: seq<Message>, mss: nat, m: nat): nat
    requires mss > 0 && m <= |ms|
  {
    |LogOf(ms[..m], mss)|
  }

  /** The packets a..b of the log are exactly what message m was cut into. */
  ghost predicate Carries(ms: seq<Message>, mss: nat, m: nat, a: nat, b: nat)
    requires mss > 0
  {
    && m < |ms| && ms[m].data != []
    && a == FirstOf(ms, mss, m) && b == FirstOf(ms, mss, m + 1)
    && a <= b <= |LogOf(ms, mss)|
    && LogOf(ms, mss)[a..b] == Chop(ms[m].data, mss, NoAt(m), ms[m].order)
  }

  lemma {:induction false} LogBounded(ms: seq<Message>, mss: nat)
    requires mss > 0
    ensures Bounded(LogOf(ms, mss))
    decreases |ms|
  {
    if ms != [] {
      var n := |ms| - 1;
      LogBounded(ms[..n], mss);
      NoAtInRange(n);
      if ms[n].data != [] {
        ChopIsMessage(ms[n].data, mss, NoAt(n), ms[n].order);
      }
      BoundedConcat(LogOf(ms[..n], mss), Chop(ms[n].data, mss, NoAt(n), ms[n].order));
    }
  }

  lemma CarriesMore(ms: seq<Message>, mss: nat, m: nat, a: nat, b: nat)
    requires mss > 0 && ms != [] && Carries(ms[..|ms| - 1], mss, m, a, b)
    ensures Carries(ms, mss, m, a, b)
  {
    var init := ms[..|ms| - 1];
    assert init[..m] == ms[..m] && init[..m + 1] == ms[..m + 1] && init[m] == ms[m];
    var n := |ms| - 1;
    assert LogOf(ms, mss) == LogOf(init, mss) + Chop(ms[n].data, mss, NoAt(n), ms[n].order);
  }

  lemma StartsInLast(init: seq<Packet>, last: seq<Packet>, a: nat, b: nat)
    requires init != [] && Bounded(init) && Whole(init + last, a, b)
    ensures a < |init| ==> b <= |init|
  {
    assert (init + last)[|init| - 1] == init[|init| - 1];
  }

  /** A run of packets that looks like a whole message is one of the messages given to addBuffer. */
  lemma {:induction false} WholeIsMessage(ms: seq<Message>, mss: nat, a: nat, b: nat) returns (m: nat)
    requires mss > 0 && Whole(LogOf(ms, mss), a, b)
    ensures Carries(ms, mss, m, a, b)
    decreases |ms|
  {
    var n := |ms| - 1;
    var init, last := LogOf(ms[..n], mss), Chop(ms[n].data, mss, NoAt(n), ms[n].order);
    LogBounded(ms[..n], mss);
    if b <= |init| {
      assert forall k :: 0 <= k < b ==> init[k] == (init + last)[k];
      m := WholeIsMessage(ms[..n], mss, a, b);
      CarriesMore(ms, mss, m, a, b);
    } else {
      m := n;
      LastIsMessage(ms, mss, a, b);
    }
  }

  /** The last message in the log, behind the messages before it. */
  lemma LastParts(ms: seq<Message>, mss: nat)
    requires mss > 0 && ms != []
    ensures var n := |ms| - 1;
      var init, last := LogOf(ms[..n], mss), Chop(ms[n].data, mss, NoAt(n), ms[n].order);
      && LogOf(ms, mss) == init + last && Bounded(init)
      && (if ms[n].data == [] then last == [] else IsMessage(last))
  {
    var n := |ms| - 1;
    LogBounded(ms[..n], mss);
    NoAtInRange(n);
    if ms[n].data != [] {
      ChopIsMessage(ms[n].data, mss, NoAt(n), ms[n].order);
    }
  }

  lemma LastIsMessage(ms: seq<Message>, mss: nat, a: nat, b: nat)
    requires mss > 0 && ms != [] && Whole(LogOf(ms, mss), a, b) && b > FirstOf(ms, mss, |ms| - 1)
    ensures Carries(ms, mss, |ms| - 1, a, b)
  {
    hide LogOf, Chop, IsMessage, Bounded, Whole;
    var n := |ms| - 1;
    var init, last := LogOf(ms[..n], mss), Chop(ms[n].data, mss, NoAt(n), ms[n].order);
    LastParts(ms, mss);
    LastWhole(init, last, a, b);
    assert ms[..n + 1] == ms && (init + last)[|init|..] == last;
  }

  lemma LastWhole(init: seq<Packet>, last: seq<Packet>, a: nat, b: nat)
    requires Bounded(init) && (last == [] || IsMessage(last)) && Whole(init + last, a, b) && b > |init|
    ensures a == |init| && b == |init| + |last| && last != []
  {
    if init != [] {
      StartsInLast(init, last, a, b);
    }
    assert (init + last)[b - 1] == last[b - 1 - |init|] && (init + last)[a] == last[a - |init|];
  }

  lemma StartMessage(size: nat, mss: nat)
    requires size > 0 && mss > 0
    ensures MessageInv(Start(false, size, mss))
  {
  }

  lemma RunFromStart(size: nat, mss: nat, es: seq<Event>, s: System)
    requires size > 0 && mss > 0 && Run(Start(false, size, mss), es, s) && s.next == SentEnd(s)
    ensures MessageInv(s) && s.snd.mss == mss
  {
    StartMessage(size, mss);
    InStepIff(Start(false, size, mss), es, s);
    RunMessage(Start(false, size, mss), es, s);
  }

  /** The first len bytes, or all if there are fewer. */
  function Front(data: seq<byte>, len: nat): seq<byte> {
    if |data| <= len then data else data[..len]
  }

  /** For every run in message mode that ends with its packets numbered as they were cut (InStepIff
      says which do): each delivery is the first len bytes of one message given to addBuffer, no
      message is delivered twice, and no packet leaves the window undelivered unless its message has
      lost a packet to a drop request. */
  lemma MessageDelivery(size: nat, mss: nat, es: seq<Event>, s: System)
    requires size > 0 && mss > 0 && Run(Start(false, size, mss), es, s) && s.next == SentEnd(s)
    ensures Inv(s) && s.log == LogOf(s.messages, mss)
    ensures forall i :: 0 <= i < |s.deliveries| ==>
              exists m: nat :: Carries(s.messages, mss, m, s.deliveries[i].start, s.deliveries[i].end)
                          && s.deliveries[i].bytes == Front(s.messages[m].data, s.deliveries[i].len)
    ensures forall i, j :: 0 <= i < j < |s.deliveries| ==> Apart(s.deliveries[i], s.deliveries[j])
    ensures forall k: nat :: k < s.rcv.base ==> Covered(s.deliveries, k) || Spoiled(s.log, s.gone, k)
  {
    RunFromStart(size, mss, es, s);
    forall i | 0 <= i < |s.deliveries|
      ensures exists m: nat :: Carries(s.messages, mss, m, s.deliveries[i].start, s.deliveries[i].end)
                          && s.deliveries[i].bytes == Front(s.messages[m].data, s.deliveries[i].len)
    {
      var d := s.deliveries[i];
      assert GoodDelivery(s.log, d);
      var m := WholeIsMessage(s.messages, mss, d.start, d.end);
      NoAtInRange(m);
      ChopIsMessage(s.messages[m].data, mss, NoAt(m), s.messages[m].order);
      assert Taken(s.messages[m].data, d.len) == Front(s.messages[m].data, d.len);
    }
    hide Spoiled, Covered, Run;
    forall k: nat | k < s.rcv.base
      ensures Covered(s.deliveries, k) || Spoiled(s.log, s.gone, k)
    {
      assert Settled(s.log, s.gone, s.deliveries, k);
    }
  }

  /** Packet n is one of message m. */
  predicate IsOf(ms: seq<Message>, mss: nat, m: nat, n: nat)
    requires mss > 0 && m < |ms|
  {
    FirstOf(ms, mss, m) <= n < FirstOf(ms, mss, m + 1)
  }

  /** ... and there an ordered message is delivered only after every message given to addBuffer before
      it, except those that have lost a packet to a drop request. */
  lemma OrderedDelivery(size: nat, mss: nat, es: seq<Event>, s: System, i: nat, m: nat, m': nat)
    requires size > 0 && mss > 0 && Run(Start(false, size, mss), es, s) && s.next == SentEnd(s)
    requires i < |s.deliveries| && Carries(s.messages, mss, m, s.deliveries[i].start, s.deliveries[i].end)
    requires s.messages[m].order && m' < m && s.messages[m'].data != []
    ensures (exists i' :: 0 <= i' < i && Carries(s.messages, mss, m', s.deliveries[i'].start, s.deliveries[i'].end))
            || exists n :: n in s.gone && IsOf(s.messages, mss, m', n)
  {
    RunFromStart(size, mss, es, s);
    OrderedHistory(s.messages, mss, s.gone, s.deliveries, i, m, m');
  }

  lemma OrderedHistory(ms: seq<Message>, mss: nat, gone: set<nat>, ds: seq<Delivery>, i: nat, m: nat, m': nat)
    requires mss > 0 && GoodHistory(LogOf(ms, mss), gone, ds)
    requires i < |ds| && Carries(ms, mss, m, ds[i].start, ds[i].end)
    requires ms[m].order && m' < m && ms[m'].data != []
    ensures (exists i' :: 0 <= i' < i && Carries(ms, mss, m', ds[i'].start, ds[i'].end))
            || exists n :: n in gone && IsOf(ms, mss, m', n)
  {
    hide LogOf, FirstOf, Chop, GoodHistory, Settled;
    var k := FirstOf(ms, mss, m');
    OrderedSettled(ms, mss, gone, ds, i, m, m');
    if Covered(ds[..i], k) {
      CoveredBefore(ms, mss, gone, ds, i, m');
    } else {
      SpoiledHas(ms, mss, gone, ds[..i], m');
    }
  }

  lemma OrderedSettled(ms: seq<Message>, mss: nat, gone: set<nat>, ds: seq<Delivery>, i: nat, m: nat, m': nat)
    requires mss > 0 && GoodHistory(LogOf(ms, mss), gone, ds)
    requires i < |ds| && Carries(ms, mss, m, ds[i].start, ds[i].end)
    requires ms[m].order && m' < m && ms[m'].data != []
    ensures Settled(LogOf(ms, mss), gone, ds[..i], FirstOf(ms, mss, m'))
  {
    hide LogOf, FirstOf, Settled, GoodDelivery, Chop, Apart, Bounded;
    LastInOrder(ms, mss, m, ds[i].start, ds[i].end);
    FirstOfGrows(ms, mss, m', m' + 1);
    FirstOfGrows(ms, mss, m' + 1, m);
  }

  lemma CoveredBefore(ms: seq<Message>, mss: nat, gone: set<nat>, ds: seq<Delivery>, i: nat, m: nat)
    requires mss > 0 && i < |ds| && m < |ms| && ms[m].data != [] && GoodHistory(LogOf(ms, mss), gone, ds)
    requires Covered(ds[..i], FirstOf(ms, mss, m))
    ensures exists i' :: 0 <= i' < i && Carries(ms, mss, m, ds[i'].start, ds[i'].end)
  {
    hide LogOf, FirstOf, Chop, GoodDelivery, Carries;
    var k := FirstOf(ms, mss, m);
    var i' :| 0 <= i' < i && ds[..i][i'].start <= k < ds[..i][i'].end;
    assert GoodDelivery(LogOf(ms, mss), ds[i']);
    CoversMessage(ms, mss, m, ds[i']);
  }

  lemma SpoiledHas(ms: seq<Message>, mss: nat, gone: set<nat>, ds: seq<Delivery>, m: nat)
    requires mss > 0 && m < |ms| && ms[m].data != []
    requires var k := FirstOf(ms, mss, m); Settled(LogOf(ms, mss), gone, ds, k) && !Covered(ds, k)
    ensures exists n :: n in gone && IsOf(ms, mss, m, n)
  {
    var k := FirstOf(ms, mss, m);
    FirstOfGrows(ms, mss, m, m + 1);
    hide LogOf, FirstOf;
    var n :| n in gone && Together(LogOf(ms, mss), n, k);
    TogetherIsOf(ms, mss, m, n, k);
  }

  lemma CoversMessage(ms: seq<Message>, mss: nat, m: nat, d: Delivery)
    requires mss > 0 && m < |ms| && ms[m].data != [] && GoodDelivery(LogOf(ms, mss), d)
    requires d.start <= FirstOf(ms, mss, m) < d.end
    ensures Carries(ms, mss, m, d.start, d.end)
  {
    var m' := WholeIsMessage(ms, mss, d.start, d.end);
    SameMessage(ms, mss, m, m');
  }

  /** Each message lies in the log as it was cut. */
  lemma {:induction false} LogHolds(ms: seq<Message>, mss: nat, m: nat)
    requires mss > 0 && m < |ms| && ms[m].data != []
    ensures Carries(ms, mss, m, FirstOf(ms, mss, m), FirstOf(ms, mss, m + 1))
    decreases |ms|
  {
    var n := |ms| - 1;
    var init, last := LogOf(ms[..n], mss), Chop(ms[n].data, mss, NoAt(n), ms[n].order);
    if m < n {
      LogHolds(ms[..n], mss, m);
      hide LogOf, Chop;
      assert ms[..n][..m] == ms[..m] && ms[..n][..m + 1] == ms[..m + 1];
      CarriesMore(ms, mss, m, FirstOf(ms, mss, m), FirstOf(ms, mss, m + 1));
    } else {
      hide Chop;
      assert ms[..n + 1] == ms && (init + last)[|init|..] == last;
    }
  }

  /** Packets with no end of a message between them are of the same message. */
  lemma TogetherIsOf(ms: seq<Message>, mss: nat, m: nat, n: nat, k: nat)
    requires mss > 0 && m < |ms| && ms[m].data != [] && IsOf(ms, mss, m, k)
    requires Together(LogOf(ms, mss), n, k)
    ensures IsOf(ms, mss, m, n)
  {
    hide LogOf, Chop, NoAt, FirstOf, Payload;
    var log, a, b := LogOf(ms, mss), FirstOf(ms, mss, m), FirstOf(ms, mss, m + 1);
    LogHolds(ms, mss, m);
    LogBounded(ms, mss);
    NoAtInRange(m);
    ChopIsMessage(ms[m].data, mss, NoAt(m), ms[m].order);
    assert Ends(log[b - 1]) by {
      assert log[a..b][b - a - 1] == log[b - 1];
    }
    assert Begins(log[a]) by {
      assert log[a..b][0] == log[a];
    }
    assert a > 0 ==> Ends(log[a - 1]);
  }

  lemma LastInOrder(ms: seq<Message>, mss: nat, m: nat, a: nat, b: nat)
    requires mss > 0 && Carries(ms, mss, m, a, b)
    ensures a < b && (InOrder(LogOf(ms, mss)[b - 1]) <==> ms[m].order)
  {
    NoAtInRange(m);
    hide Chop, LogOf, InOrder, NoAt;
    LastCarriesOrder(ms[m], mss, NoAt(m));
    var ps := Chop(ms[m].data, mss, NoAt(m), ms[m].order);
    assert LogOf(ms, mss)[a..b][b - a - 1] == ps[|ps| - 1];
  }

  lemma LastCarriesOrder(m: Message, mss: nat, no: bv32)
    requires mss > 0 && m.data != [] && 0 < no < MAX_MSG_NO
    ensures var ps := Chop(m.data, mss, no, m.order); ps != [] && (InOrder(ps[|ps| - 1]) <==> m.order)
  {
    hide MsgWord, Payload;
    ChopIsMessage(m.data, mss, no, m.order);
  }

  lemma {:induction false} FirstOfGrows(ms: seq<Message>, mss: nat, i: nat, j: nat)
    requires mss > 0 && i <= j <= |ms|
    ensures FirstOf(ms, mss, i) <= FirstOf(ms, mss, j)
    ensures i < j && ms[j - 1].data != [] ==> FirstOf(ms, mss, i) < FirstOf(ms, mss, j)
    decreases j
  {
    if i < j {
      FirstOfGrows(ms, mss, i, j - 1);
      assert ms[..j][..j - 1] == ms[..j - 1];
    }
  }

  lemma SameMessage(ms: seq<Message>, mss: nat, m: nat, m': nat)
    requires mss > 0 && m < |ms| && m' < |ms| && ms[m].data != []
    requires FirstOf(ms, mss, m') <= FirstOf(ms, mss, m) < FirstOf(ms, mss, m' + 1)
    ensures m' == m
  {
    FirstOfGrows(ms, mss, m, m + 1);
    if m' < m {
      FirstOfGrows(ms, mss, m' + 1, m);
    } else if m < m' {
      FirstOfGrows(ms, mss, m + 1, m');
    }
  }
}
