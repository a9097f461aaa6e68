/** Message mode of the receiving buffer: scanMsg and readMsg on windows. */
module UdtScan {
  import opened Prelude
  import opened UdtPackets
  import opened UdtWindow

  /** Overflow is the fallback at the end of scanMsg: an unfinished message that leaves no room. */
  datatype ScanResult = NotFound | Found(p: nat, q: nat, passack: bool) | Overflow(p: nat)

  ghost predicate Scannable(w: Window) {
    w.acked + w.maxPos < |w.slots| && w.notch == 0
  }

  /** From slot i on, unread packets up to the end of a message or to the acknowledgement point. */
  predicate LookAhead(w: Window, i: nat)
    requires i <= w.acked <= |w.slots|
    decreases w.acked - i
  {
    i == w.acked || (Unread(w.slots[i]) && (Ends(w.slots[i].value.packet) || LookAhead(w, i + 1)))
  }

  predicate GoodHead(w: Window)
    requires 0 < w.acked <= |w.slots|
  {
    Unread(w.slots[0]) && Begins(w.slots[0].value.packet) && LookAhead(w, 0)
  }

  /** First pass: frees acknowledged slots until a whole message, or nothing, is at the front. */
  function SkipBad(w: Window): (w': Window)
    requires w.acked + w.maxPos < |w.slots|
    ensures w'.acked + w'.maxPos < |w'.slots|
    decreases w.acked
  {
    if w.acked == 0 || GoodHead(w) then w else SkipBad(DropFront(w))
  }

  function Wrap(i: nat, n: nat): nat {
    if i == n then 0 else i
  }

  /** Second pass, from slot i on; p is the head of the message being followed, if any. */
  function Find(w: Window, i: nat, p: Option<nat>): ScanResult
    requires i <= w.acked + w.maxPos + 1 <= |w.slots|
    decreases w.acked + w.maxPos + 1 - i
  {
    if i == w.acked + w.maxPos + 1 then
      if p.Some? && Wrap(Wrap(i, |w.slots|) + 1, |w.slots|) == p.value then Overflow(p.value) else NotFound
    else if Unread(w.slots[i]) then
      var pkt := w.slots[i].value.packet;
      var p' := if Begins(pkt) then Some(i) else p;
      if Ends(pkt) && p'.Some? && (i < w.acked || !InOrder(pkt)) then Found(p'.value, i, i >= w.acked)
      else Find(w, i + 1, p')
    else Find(w, i + 1, None)
  }

  function Scan(w: Window): (Window, ScanResult)
    requires w.acked + w.maxPos < |w.slots|
  {
    if w.acked == 0 && w.maxPos == 0 then (w, NotFound)
    else (SkipBad(w), Find(SkipBad(w), 0, None))
  }

  /** Slots a..b hold one whole message nobody has read. */
  ghost predicate UnreadMessage(w: Window, a: nat, b: nat) {
    && a <= b < |w.slots|
    && (forall j :: a <= j <= b ==> Unread(w.slots[j]))
    && Begins(w.slots[a].value.packet) && Ends(w.slots[b].value.packet)
    && (forall j :: a <= j < b ==> !Ends(w.slots[j].value.packet))
  }

  /** ... that may be handed out now: acknowledged, or not bound to the order of sending. */
  ghost predicate Deliverable(w: Window, a: nat, b: nat) {
    UnreadMessage(w, a, b) && (b < w.acked || !InOrder(w.slots[b].value.packet))
  }

  /** Neighbouring packets agree on message boundaries, as everything a sender cuts does. */
  ghost predicate WellBounded(w: Window) {
    forall j :: 0 <= j < |w.slots| - 1 && w.slots[j].Some? && w.slots[j + 1].Some? ==>
      (Ends(w.slots[j].value.packet) <==> Begins(w.slots[j + 1].value.packet))
  }

  /** p is followed from its first packet over unread packets; only the last one may end it. */
  ghost predicate Following(w: Window, i: nat, p: Option<nat>)
    requires i <= |w.slots|
  {
    p.Some? ==>
      && p.value < i
      && (forall j :: p.value <= j < i ==> Unread(w.slots[j]))
      && Begins(w.slots[p.value].value.packet)
      && (forall j :: p.value <= j < i - 1 ==> !Ends(w.slots[j].value.packet))
  }

  /** Whatever the second pass finds is one whole, unread, deliverable message. */
  lemma {:induction false} FindSound(w: Window, i: nat, p: Option<nat>)
    requires i <= w.acked + w.maxPos + 1 <= |w.slots| && WellBounded(w) && Following(w, i, p)
    ensures var r := Find(w, i, p);
            r.Found? ==> Deliverable(w, r.p, r.q) && r.passack == (r.q >= w.acked) && r.q <= w.acked + w.maxPos
    decreases w.acked + w.maxPos + 1 - i
  {
    if i < w.acked + w.maxPos + 1 {
      if Unread(w.slots[i]) {
        var pkt := w.slots[i].value.packet;
        var p' := if Begins(pkt) then Some(i) else p;
        if p.Some? && !Begins(pkt) {
          assert !Ends(w.slots[i - 1].value.packet);
        }
        FindSound(w, i + 1, p');
      } else {
        FindSound(w, i + 1, None);
      }
    }
  }

  /** No deliverable message is passed over: the pass stops at or before the end of each. */
  lemma {:induction false} FindComplete(w: Window, i: nat, p: Option<nat>, a: nat, b: nat)
    requires i <= w.acked + w.maxPos + 1 <= |w.slots| && WellBounded(w)
    requires Deliverable(w, a, b) && i <= b <= w.acked + w.maxPos
    requires a < i ==> p == Some(a)
    ensures Find(w, i, p).Found? && Find(w, i, p).q <= b
    decreases w.acked + w.maxPos + 1 - i
  {
    if Unread(w.slots[i]) {
      var pkt := w.slots[i].value.packet;
      var p' := if Begins(pkt) then Some(i) else p;
      if i < b {
        if a < i {
          assert !Ends(w.slots[i - 1].value.packet);
        }
        FindComplete(w, i + 1, p', a, b);
      }
    } else {
      FindComplete(w, i + 1, None, a, b);
    }
  }

  /** How far the first pass moves the start position. */
  lemma {:induction false} SkipShifts(w: Window) returns (k: nat)
    requires Scannable(w)
    ensures Shifted(w, SkipBad(w), k) && Scannable(SkipBad(w))
    ensures ValidWindow(w) ==> ValidWindow(SkipBad(w))
    ensures SkipBad(w).acked > 0 ==> GoodHead(SkipBad(w))
    decreases w.acked
  {
    k := 0;
    if w.acked > 0 && !GoodHead(w) {
      var j := SkipShifts(DropFront(w));
      ShiftedMore(w, SkipBad(w), j);
      k := j + 1;
    }
  }

  lemma ShiftKeepsBounds(w: Window, w': Window, k: nat)
    requires WellBounded(w) && Shifted(w, w', k) && w.acked + w.maxPos < |w.slots| && ValidWindow(w')
    ensures WellBounded(w')
  {
  }

  /** Where the look-ahead of the first pass stops: the end of the message at the front, if acknowledged. */
  lemma {:induction false} LookAheadStops(w: Window, i: nat) returns (e: nat)
    requires i <= w.acked <= |w.slots| && LookAhead(w, i)
    ensures i <= e <= w.acked
    ensures forall j :: i <= j < e ==> Unread(w.slots[j]) && !Ends(w.slots[j].value.packet)
    ensures e < w.acked ==> Unread(w.slots[e]) && Ends(w.slots[e].value.packet)
    decreases w.acked - i
  {
    e := i;
    if i < w.acked && !Ends(w.slots[i].value.packet) {
      e := LookAheadStops(w, i + 1);
    }
  }

  lemma MessageFollowsEnd(w: Window, a: nat, b: nat)
    requires WellBounded(w) && UnreadMessage(w, a, b)
    ensures a > 0 && w.slots[a - 1].Some? ==> Ends(w.slots[a - 1].value.packet)
  {
  }

  /** A message found before the acknowledgement point starts at the start position, so freeing
      up to its end skips nothing. */
  lemma FoundAtFront(w: Window)
    requires w.acked + w.maxPos < |w.slots| && WellBounded(w)
    requires w.acked > 0 ==> GoodHead(w)
    requires Find(w, 0, None).Found? && !Find(w, 0, None).passack
    ensures Find(w, 0, None).p == 0
  {
    var r := Find(w, 0, None);
    FindSound(w, 0, None);
    var e := LookAheadStops(w, 0);
    if e < w.acked {
      FindComplete(w, 0, None, 0, e);
    }
    MessageFollowsEnd(w, r.p, r.q);
  }

  function Drop(w: Window, k: nat): Window
    requires k <= w.acked <= |w.slots|
  {
    Window(w.base + k, w.slots[k..] + seq(k, _ => None), w.acked - k, w.maxPos, if k == 0 then w.notch else 0)
  }

  function MarkSlot(s: Option<Slot>): Option<Slot> {
    if s.Some? then Some(Slot(s.value.packet, 2)) else None
  }

  /** Slots a..b, b excluded, marked or emptied. */
  function Touched(slots: seq<Option<Slot>>, a: nat, b: nat, mark: bool): seq<Option<Slot>> {
    seq(|slots|, j requires 0 <= j < |slots| => if a <= j < b then if mark then MarkSlot(slots[j]) else None else slots[j])
  }

  /** Slots p..q are read but not freed. */
  function Mark(w: Window, p: nat, q: nat): Window
    requires p <= q < |w.slots|
  {
    w.(slots := Touched(w.slots, p, q + 1, true))
  }

  function Gather(w: Window, p: nat, q: nat): seq<byte>
    requires p <= q <= |w.slots| && forall j :: p <= j < q ==> w.slots[j].Some?
  {
    Payload(PacketsOf(w.slots[p..q]))
  }

  function Taken(bytes: seq<byte>, len: nat): seq<byte> {
    bytes[..Min(len, |bytes|)]
  }

  lemma TouchedStep(slots: seq<Option<Slot>>, a: nat, k: nat, mark: bool)
    requires a <= k < |slots|
    ensures Touched(slots, a, a, mark) == slots && |Touched(slots, a, k, mark)| == |slots|
    ensures Touched(slots, a, k, mark)[k] == slots[k]
    ensures Touched(slots, a, k + 1, mark)
            == Touched(slots, a, k, mark)[k := if mark then MarkSlot(slots[k]) else None]
  {
  }

  lemma GatherStep(w: Window, p: nat, k: nat, len: nat)
    requires p <= k < |w.slots| && forall j :: p <= j <= k ==> w.slots[j].Some?
    ensures var done, next := Gather(w, p, k), w.slots[k].value.packet.data;
            var room := len - |Taken(done, len)|;
            Taken(Gather(w, p, k + 1), len) == Taken(done, len) + next[..Min(room, |next|)]
  {
    var pkt := w.slots[k].value.packet;
    assert PacketsOf(w.slots[p..k + 1]) == PacketsOf(w.slots[p..k]) + [pkt];
    PayloadConcat(PacketsOf(w.slots[p..k]), [pkt]);
    assert Payload([pkt]) == pkt.data by { assert [pkt][1..] == []; }
  }

  ghost predicate Present(w: Window, r: ScanResult) {
    r.Found? ==> r.p <= r.q < |w.slots| && (!r.passack ==> r.q < w.acked <= |w.slots|)
                 && forall j :: r.p <= j <= r.q ==> w.slots[j].Some?
  }

  /** Takes a found message out of the window: its first len bytes, and the window after that. */
  function Take(w: Window, r: ScanResult, len: nat): (Window, seq<byte>)
    requires Present(w, r)
  {
    match r
    case Found(p, q, passack) =>
      (if passack then Mark(w, p, q) else Drop(w, q + 1), Taken(Gather(w, p, q + 1), len))
    case _ => (w, [])
  }

  lemma ScanMoves(w: Window) returns (k: nat)
    requires ValidWindow(w) && Scannable(w) && WellBounded(w)
    ensures Shifted(w, Scan(w).0, k)
    ensures ValidWindow(Scan(w).0) && Scannable(Scan(w).0) && WellBounded(Scan(w).0)
    ensures Scan(w).1 != NotFound && Scan(w).0.acked > 0 ==> GoodHead(Scan(w).0)
    ensures Scan(w).1 != NotFound ==> Scan(w).1 == Find(Scan(w).0, 0, None)
  {
    k := 0;
    if w.acked > 0 || w.maxPos > 0 {
      k := SkipShifts(w);
      ShiftKeepsBounds(w, SkipBad(w), k);
    }
  }

  /** scanMsg as a whole: what it finds is a whole deliverable message of the window it leaves. */
  lemma ScanFinds(w: Window)
    requires ValidWindow(w) && Scannable(w) && WellBounded(w)
    ensures var (w', r) := Scan(w);
            r.Found? ==>
              && Deliverable(w', r.p, r.q) && r.passack == (r.q >= w'.acked) && r.q <= w'.acked + w'.maxPos
              && (!r.passack ==> r.p == 0)
  {
    var k := ScanMoves(w);
    var (w', r) := Scan(w);
    if r.Found? {
      FindSound(w', 0, None);
      if !r.passack {
        FoundAtFront(w');
      }
    }
  }

  lemma ScanPresent(w: Window)
    requires ValidWindow(w) && Scannable(w) && WellBounded(w)
    ensures Present(Scan(w).0, Scan(w).1)
  {
    var k := ScanMoves(w);
    ScanFinds(w);
  }

  ghost function ReadMsg(w: Window, len: nat): (Window, seq<byte>)
    requires ValidWindow(w) && Scannable(w) && WellBounded(w)
  {
    ScanPresent(w);
    Take(Scan(w).0, Scan(w).1, len)
  }

  /** What a scan result must be for its message to be taken out. */
  ghost predicate Takeable(w: Window, r: ScanResult) {
    && Present(w, r)
    && (r.Found? ==> r.q + 1 < |w.slots| && (!r.passack ==> r.p == 0))
  }

  /** Taking a message out, in terms of the slots the copying loop has touched. */
  lemma TakeByTouching(w: Window, r: ScanResult, len: nat)
    requires ValidWindow(w) && Scannable(w) && Takeable(w, r) && !r.NotFound?
    requires r.Overflow? ==> r.p < |w.slots|
    ensures var b := if r.Found? then r.q + 1 else r.p;
            var mark := r.Overflow? || r.passack;
            var slots' := Touched(w.slots, r.p, b, mark);
            && (forall j :: r.p <= j < b ==> w.slots[j].Some?)
            && Take(w, r, len).1 == Taken(Gather(w, r.p, b), len)
            && (mark ==> Take(w, r, len).0 == w.(slots := slots'))
            && (!mark ==>
                  && b <= w.acked && |slots'| == |w.slots|
                  && (forall j :: 0 <= j < b ==> slots'[j].None?)
                  && Take(w, r, len).0 == Window(w.base + b, slots'[b..] + seq(b, _ => None), w.acked - b, w.maxPos, 0))
  {
  }

  lemma TakeValid(w: Window, r: ScanResult, len: nat)
    requires ValidWindow(w) && Scannable(w) && Takeable(w, r)
    ensures ValidWindow(Take(w, r, len).0) && Scannable(Take(w, r, len).0)
  {
  }

  /** dropMsg: a packet can still be read afterwards exactly when it could before and its word is not the
      one given, or it is the one furthest on; no packet is taken out or changed. */
  lemma DropMsgIff(w: Window, no: bv32, j: nat)
    requires j < |w.slots|
    ensures Unread(DropMsg(w, no).slots[j]) <==>
      Unread(w.slots[j]) && (w.slots[j].value.packet.msgNo != no || j >= w.acked + w.maxPos)
    ensures DropMsg(w, no).slots[j].Some? <==> w.slots[j].Some?
    ensures w.slots[j].Some? ==> DropMsg(w, no).slots[j].value.packet == w.slots[j].value.packet
  {
  }

  lemma ScanTakeable(w: Window)
    requires ValidWindow(w) && Scannable(w) && WellBounded(w)
    ensures ValidWindow(Scan(w).0) && Scannable(Scan(w).0) && Takeable(Scan(w).0, Scan(w).1)
  {
    var k := ScanMoves(w);
    ScanFinds(w);
    ScanPresent(w);
  }
}
