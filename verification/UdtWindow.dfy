/** The receiving buffer as a window of slots counted from its start position.
    Slot j of a window is the ring slot j places after m_iStartPos; `base` counts the
    packets the start position has moved past since the buffer was made. */
module UdtWindow {
  import opened Prelude
  import opened UdtPackets

  /** flag: 1 unread, 2 read out of order but not freed, 3 dropped */
  datatype Slot = Slot(packet: Packet, flag: int)

  datatype Window = Window(base: nat, slots: seq<Option<Slot>>, acked: nat, maxPos: nat, notch: nat)

  predicate Unread(s: Option<Slot>) {
    s.Some? && s.value.flag == 1
  }

  ghost predicate ValidWindow(w: Window) {
    && w.acked + w.maxPos < |w.slots|
    && (forall j :: w.acked + w.maxPos < j < |w.slots| ==> w.slots[j].None?)
    && w.slots[|w.slots| - 1].None?
    && (forall j :: 0 <= j < |w.slots| && w.slots[j].Some? ==> 1 <= w.slots[j].value.flag <= 3)
    && (w.notch > 0 ==> w.acked > 0 && w.slots[0].Some? && w.notch < |w.slots[0].value.packet.data|)
  }

  /** Every acknowledged slot still holds its packet. */
  predicate Contiguous(w: Window) {
    && w.acked <= |w.slots|
    && (forall j :: 0 <= j < w.acked ==> w.slots[j].Some?)
    && (w.acked > 0 ==> w.notch <= |w.slots[0].value.packet.data|)
  }

  function AvailSize(w: Window): int {
    |w.slots| - w.acked - 1
  }

  function AddData(w: Window, p: Packet, offset: nat): Window
    requires ValidWindow(w) && offset < AvailSize(w)
  {
    var w' := if offset > w.maxPos then w.(maxPos := offset) else w;
    if w.slots[w.acked + offset].Some? then w'
    else w'.(slots := w.slots[w.acked + offset := Some(Slot(p, 1))])
  }

  function AckData(w: Window, len: nat): Window
    requires ValidWindow(w) && w.acked + len < |w.slots|
  {
    w.(acked := w.acked + len, maxPos := if w.maxPos < len then 0 else w.maxPos - len)
  }

  function Struck(s: Option<Slot>, no: bv32): Option<Slot> {
    if s.Some? && s.value.packet.msgNo == no then Some(Slot(s.value.packet, 3)) else s
  }

  /** dropMsg: it compares the whole message number word, flag bits included, and stops before the
      slot furthest on. */
  function DropMsg(w: Window, no: bv32): Window {
    w.(slots := StruckTo(w.slots, w.acked + w.maxPos, no))
  }

  function StruckTo(slots: seq<Option<Slot>>, n: nat, no: bv32): seq<Option<Slot>> {
    seq(|slots|, j requires 0 <= j < |slots| => if j < n then Struck(slots[j], no) else slots[j])
  }

  lemma StruckStep(slots: seq<Option<Slot>>, n: nat, no: bv32)
    requires n < |slots|
    ensures StruckTo(slots, 0, no) == slots && |StruckTo(slots, n, no)| == |slots|
    ensures StruckTo(slots, n, no)[n] == slots[n]
    ensures StruckTo(slots, n + 1, no) == StruckTo(slots, n, no)[n := Struck(slots[n], no)]
  {
  }

  lemma DropMsgValid(w: Window, no: bv32)
    requires ValidWindow(w)
    ensures ValidWindow(DropMsg(w, no))
  {
  }

  lemma AddDataValid(w: Window, p: Packet, offset: nat)
    requires ValidWindow(w) && offset < AvailSize(w)
    ensures ValidWindow(AddData(w, p, offset))
  {
  }

  lemma AckDataValid(w: Window, len: nat)
    requires ValidWindow(w) && w.acked + len < |w.slots|
    ensures ValidWindow(AckData(w, len))
  {
  }

  /** The start position moves past slot 0, which becomes free. */
  function DropFront(w: Window): (w': Window)
    requires 0 < w.acked <= |w.slots|
  {
    Window(w.base + 1, w.slots[1..] + [None], w.acked - 1, w.maxPos, 0)
  }

  lemma DropFrontValid(w: Window)
    requires ValidWindow(w) && w.acked > 0
    ensures ValidWindow(DropFront(w))
  {
  }

  // ---- Stream mode: readBuffer ----

  /** One turn of the loop of readBuffer: the window after it and the bytes it copies. */
  function Turn(w: Window, rs: nat): (r: (Window, seq<byte>))
    requires Contiguous(w) && w.acked > 0 && rs > 0
    ensures Contiguous(r.0) && |r.1| <= rs
    ensures r.0.acked < w.acked || (r.0.acked == w.acked && |r.1| == rs)
  {
    var data := w.slots[0].value.packet.data;
    var size := |data| - w.notch;
    if rs >= size then (DropFront(w), data[w.notch..]) else (w.(notch := w.notch + rs), data[w.notch..w.notch + rs])
  }

  /** What readBuffer leaves and what it copies out. */
  function Read(w: Window, rs: int): (r: (Window, seq<byte>))
    requires Contiguous(w)
    ensures Contiguous(r.0)
    decreases w.acked, rs
  {
    if w.acked == 0 || rs <= 0 then (w, [])
    else
      var (w', bytes) := Turn(w, rs);
      var (w'', out) := Read(w', rs - |bytes|);
      (w'', bytes + out)
  }

  function PacketsOf(slots: seq<Option<Slot>>): seq<Packet>
    requires forall j :: 0 <= j < |slots| ==> slots[j].Some?
  {
    seq(|slots|, j requires 0 <= j < |slots| => slots[j].value.packet)
  }

  /** The acknowledged bytes not yet read. */
  ghost function Stream(w: Window): seq<byte>
    requires Contiguous(w)
  {
    if w.acked == 0 then []
    else w.slots[0].value.packet.data[w.notch..] + Payload(PacketsOf(w.slots[1..w.acked]))
  }

  lemma StreamDrop(w: Window)
    requires Contiguous(w) && w.acked > 0
    ensures Stream(w) == w.slots[0].value.packet.data[w.notch..] + Stream(DropFront(w))
  {
    var w' := DropFront(w);
    var ps := PacketsOf(w.slots[1..w.acked]);
    if w.acked > 1 {
      assert w'.slots[1..w'.acked] == w.slots[1..w.acked][1..];
      assert ps[1..] == PacketsOf(w'.slots[1..w'.acked]);
    }
  }

  /** w' is w with its start moved k slots on: whatever is left kept its place. */
  ghost predicate Shifted(w: Window, w': Window, k: nat) {
    && k <= w.acked && w'.base == w.base + k && w'.acked == w.acked - k
    && |w'.slots| == |w.slots| && w'.maxPos == w.maxPos
    && (forall j :: 0 <= j < |w.slots| - k ==> w'.slots[j] == w.slots[j + k])
  }

  lemma ShiftedMore(w: Window, w': Window, k: nat)
    requires 0 < w.acked <= |w.slots| && Shifted(DropFront(w), w', k)
    ensures Shifted(w, w', k + 1)
  {
  }

  /** A read only moves the start position: what is behind it keeps its place. */
  lemma {:induction false} ReadShifts(w: Window, rs: int) returns (k: nat)
    requires Contiguous(w)
    ensures Shifted(w, Read(w, rs).0, k)
    decreases w.acked, rs
  {
    k := 0;
    if w.acked > 0 && rs > 0 {
      var (w', bytes) := Turn(w, rs);
      k := ReadShifts(w', rs - |bytes|);
      if w'.acked < w.acked {
        ShiftedMore(w, Read(w, rs).0, k);
        k := k + 1;
      }
    }
  }

  lemma {:induction false} ReadValid(w: Window, rs: int)
    requires ValidWindow(w) && Contiguous(w)
    ensures ValidWindow(Read(w, rs).0)
    decreases w.acked, rs
  {
    if w.acked > 0 && rs > 0 {
      TurnValid(w, rs);
      var (w', bytes) := Turn(w, rs);
      ReadValid(w', rs - |bytes|);
    }
  }

  lemma TurnValid(w: Window, rs: nat)
    requires ValidWindow(w) && Contiguous(w) && w.acked > 0 && rs > 0
    ensures ValidWindow(Turn(w, rs).0)
  {
  }

  lemma TurnStream(w: Window, rs: nat)
    requires Contiguous(w) && w.acked > 0 && rs > 0
    ensures Stream(w) == Turn(w, rs).1 + Stream(Turn(w, rs).0)
  {
    var data := w.slots[0].value.packet.data;
    if rs >= |data| - w.notch {
      StreamDrop(w);
    } else {
      var rest := Payload(PacketsOf(w.slots[1..w.acked]));
      assert data[w.notch..] == data[w.notch..w.notch + rs] + data[w.notch + rs..];
      assert Stream(w) == data[w.notch..w.notch + rs] + (data[w.notch + rs..] + rest);
    }
  }

  /** How the loop of readBuffer accumulates its output. */
  lemma ReadStep(w: Window, rs: nat, done: seq<byte>)
    requires Contiguous(w) && w.acked > 0 && rs > 0
    ensures var (w', bytes) := Turn(w, rs);
            && Read(w, rs).0 == Read(w', rs - |bytes|).0
            && done + Read(w, rs).1 == (done + bytes) + Read(w', rs - |bytes|).1
  {
  }

  /** readBuffer copies exactly the first min(rs, available) bytes of the unread stream and
      removes exactly those, whatever packets and notches they cross. */
  lemma {:induction false} ReadTakesPrefix(w: Window, rs: nat)
    requires Contiguous(w)
    ensures var n := Min(rs, |Stream(w)|);
            && Read(w, rs).1 == Stream(w)[..n]
            && Stream(Read(w, rs).0) == Stream(w)[n..]
    decreases w.acked, rs
  {
    if w.acked > 0 && rs > 0 {
      var (w', bytes) := Turn(w, rs);
      TurnStream(w, rs);
      ReadTakesPrefix(w', rs - |bytes|);
      TakeDropAcross(bytes, Stream(w'), rs);
    }
  }

  lemma TakeDropAcross(a: seq<byte>, b: seq<byte>, n: nat)
    requires n >= |a|
    ensures (a + b)[..Min(n, |a + b|)] == a + b[..Min(n - |a|, |b|)]
    ensures (a + b)[Min(n, |a + b|)..] == b[Min(n - |a|, |b|)..]
  {
  }
}
