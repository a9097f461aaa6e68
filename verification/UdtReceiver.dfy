/** The receiving buffer: a ring of slots over units taken from a shared queue
    (src/udt/newlib/buffer.cpp). Its methods are proved against UdtWindow and UdtScan. */
module UdtReceiver {
  import opened Prelude
  import opened UdtPackets
  import opened UdtWindow
  import opened UdtScan

  /** flag: 0 free, 1 occupied, 2 read but not freed, 3 dropped */
  class Unit {
    var packet: Packet
    var flag: int

    constructor (packet: Packet)
      ensures this.packet == packet && flag == 0
    {
      this.packet, this.flag := packet, 0;
    }
  }

  class UnitQueue {
    var count: int

    constructor ()
      ensures count == 0
    {
      count := 0;
    }
  }

  /** The ring position j places after start. */
  function Pos(start: nat, j: nat, size: nat): int {
    if start + j < size then start + j else start + j - size
  }

  /** x % size, for the sums of two ring positions the buffer reduces. */
  function RingIndex(x: nat, size: nat): (r: nat)
    requires x < 2 * size
    ensures r == if x < size then x else x - size
  {
    ModWraps(x, size);
    x % size
  }

  lemma ModWraps(x: nat, size: nat)
    requires x < 2 * size
    ensures x % size == if x < size then x else x - size
  {
  }

  ghost predicate Matches(u: Unit?, s: Option<Slot>)
    reads u
  {
    if u == null then s.None? else s == Some(Slot(u.packet, u.flag))
  }

  /** How many slots hold a unit. */
  function Occupied(slots: seq<Option<Slot>>): nat {
    if slots == [] then 0 else (if slots[0].Some? then 1 else 0) + Occupied(slots[1..])
  }

  lemma {:induction false} OccupiedConcat(a: seq<Option<Slot>>, b: seq<Option<Slot>>)
    ensures Occupied(a + b) == Occupied(a) + Occupied(b)
  {
    if a == [] {
      assert a + b == b;
    } else {
      OccupiedConcat(a[1..], b);
      assert (a + b)[1..] == a[1..] + b;
    }
  }

  lemma {:induction false} OccupiedNone(n: nat)
    ensures Occupied(seq(n, _ => None)) == 0
  {
    var none: seq<Option<Slot>> := seq(n, _ => None);
    if n > 0 {
      OccupiedNone(n - 1);
      assert none[1..] == seq(n - 1, _ => None);
    }
  }

  lemma OccupiedUpdate(slots: seq<Option<Slot>>, j: nat, s: Option<Slot>)
    requires j < |slots|
    ensures Occupied(slots[j := s]) == Occupied(slots) + (if s.Some? then 1 else 0) - (if slots[j].Some? then 1 else 0)
  {
    OccupiedConcat(slots[..j], [slots[j]] + slots[j + 1..]);
    OccupiedConcat(slots[..j], [s] + slots[j + 1..]);
    OccupiedConcat([slots[j]], slots[j + 1..]);
    OccupiedConcat([s], slots[j + 1..]);
    assert slots == slots[..j] + ([slots[j]] + slots[j + 1..]);
    assert slots[j := s] == slots[..j] + ([s] + slots[j + 1..]);
  }

  lemma OccupiedShift(slots: seq<Option<Slot>>, k: nat)
    requires k <= |slots| && forall j :: 0 <= j < k ==> slots[j].None?
    ensures Occupied(slots[k..] + seq(k, _ => None)) == Occupied(slots)
  {
    var none: seq<Option<Slot>> := seq(k, _ => None);
    OccupiedConcat(slots[..k], slots[k..]);
    OccupiedConcat(slots[k..], none);
    assert slots[..k] == none && slots == slots[..k] + slots[k..];
  }

  /** memcpy */
  method CopyOut(bytes: seq<byte>, from: nat, n: nat, data: array<byte>, off: nat)
    requires from + n <= |bytes| && off + n <= data.Length
    modifies data
    ensures data[..off + n] == old(data[..off]) + bytes[from..from + n]
  {
    forall k | 0 <= k < n {
      data[off + k] := bytes[from + k];
    }
  }

  /** Copies as much of a packet as there is room for, and returns the room left. */
  method CopyClipped(bytes: seq<byte>, data: array<byte>, off: nat, rs: nat) returns (rs': nat)
    requires off + rs <= data.Length
    modifies data
    ensures rs' <= rs && data[..off + rs - rs'] == old(data[..off]) + bytes[..Min(rs, |bytes|)]
  {
    rs' := rs;
    var unitsize := |bytes|;
    if unitsize > rs {
      unitsize := rs;
    }
    if unitsize > 0 {
      CopyOut(bytes, 0, unitsize, data, off);
      rs' := rs' - unitsize;
    }
  }

  /** Copying the next packet, clipped to the room left, copies the message that far. */
  lemma CopyStep(w: Window, a: nat, k: nat, len: nat, before: seq<byte>, room: nat)
    requires a <= k < |w.slots| && forall j :: a <= j <= k ==> w.slots[j].Some?
    requires before == Taken(Gather(w, a, k), len) && |before| + room == len
    ensures var bytes := w.slots[k].value.packet.data;
      before + bytes[..Min(room, |bytes|)] == Taken(Gather(w, a, k + 1), len)
  {
    hide Gather, Taken;
    GatherStep(w, a, k, len);
  }

  lemma Rotated(us: seq<Unit?>, k: nat)
    requires k <= |us| && forall i, j :: 0 <= i < j < |us| && us[i] != null ==> us[i] != us[j]
    ensures forall i, j {:trigger (us[k..] + us[..k])[i], (us[k..] + us[..k])[j]} ::
              0 <= i < j < |us| && (us[k..] + us[..k])[i] != null ==> (us[k..] + us[..k])[i] != (us[k..] + us[..k])[j]
  {
  }

  class RcvBuffer {
    const unit: array<Unit?>
    const size: nat
    const unitQueue: UnitQueue
    var startPos: nat
    var lastAckPos: nat
    var maxPos: nat
    var notch: nat

    // The units from startPos round the ring, what they hold, the acknowledged length,
    // and how many packets the start position has moved past.
    ghost var win: seq<Unit?>
    ghost var slots: seq<Option<Slot>>
    ghost var acked: nat
    ghost var base: nat

    /** The slot array is the window, bent into a ring; no unit sits in two slots. */
    ghost predicate Ring()
      reads this, unit, win
    {
      && unit.Length == size == |win| == |slots|
      && startPos < size && acked < size
      && lastAckPos == Pos(startPos, acked, size)
      && (forall j {:trigger win[j]} :: 0 <= j < size ==> win[j] == unit[Pos(startPos, j, size)])
      && (forall j {:trigger Matches(win[j], slots[j])} :: 0 <= j < size ==> Matches(win[j], slots[j]))
      && (forall i, j {:trigger win[i], win[j]} :: 0 <= i < j < size && win[i] != null ==> win[i] != win[j])
    }

    ghost predicate Valid()
      reads this, unit, win
    {
      Ring() && ValidWindow(View())
    }

    ghost function View(): Window
      reads this
    {
      Window(base, slots, acked, maxPos, notch)
    }

    /** Units counted by the queue beyond those this buffer holds. */
    ghost function Elsewhere(): int
      reads this, unitQueue
    {
      unitQueue.count - Occupied(slots)
    }

    constructor (queue: UnitQueue, bufsize: nat)
      requires bufsize > 0
      ensures Valid() && fresh(unit) && unitQueue == queue && size == bufsize
      ensures View() == Window(0, seq(bufsize, _ => None), 0, 0, 0)
      ensures Elsewhere() == queue.count && Tally({})
    {
      size := bufsize;
      unit := new Unit?[bufsize](_ => null);
      unitQueue := queue;
      startPos, lastAckPos, maxPos, notch := 0, 0, 0, 0;
      win, slots := seq(bufsize, _ => null), seq(bufsize, _ => None);
      acked, base := 0, 0;
      new;
      OccupiedNone(bufsize);
    }

    method GetRcvDataSize() returns (n: int)
      requires Valid()
      ensures n == acked
    {
      if lastAckPos >= startPos {
        return lastAckPos - startPos;
      }
      return size + lastAckPos - startPos;
    }

    method GetAvailBufSize() returns (n: int)
      requires Valid()
      ensures n == AvailSize(View())
    {
      var d := GetRcvDataSize();
      return size - d - 1;
    }

    method Fill(pos: nat, u: Unit, ghost k: nat)
      requires Ring() && k < size && pos == Pos(startPos, k, size)
      requires slots[k].None? && u !in win
      modifies unit, u`flag, unitQueue, this`win, this`slots
      ensures Ring() && Elsewhere() == old(Elsewhere())
      ensures slots == old(slots)[k := Some(Slot(u.packet, 1))] && win == old(win)[k := u] && u.flag == 1
    {
      assert Matches(win[k], slots[k]);
      OccupiedUpdate(slots, k, Some(Slot(u.packet, 1)));
      unit[pos] := u;
      u.flag := 1;
      unitQueue.count := unitQueue.count + 1;
      win, slots := win[k := u], slots[k := Some(Slot(u.packet, 1))];
      forall j | 0 <= j < size
        ensures Matches(win[j], slots[j])
      {
        assert old(Matches(win[j], slots[j]));
      }
    }

    /** Frees the unit in a slot. */
    method Clear(pos: nat, ghost k: nat, ghost u: Unit)
      requires Ring() && k < size && pos == Pos(startPos, k, size) && win[k] == u
      modifies unit, u`flag, unitQueue, this`win, this`slots
      ensures Ring() && Elsewhere() == old(Elsewhere())
      ensures slots == old(slots)[k := None] && win == old(win)[k := null] && u.flag == 0
    {
      assert Matches(win[k], slots[k]);
      OccupiedUpdate(slots, k, None);
      var tmp := unit[pos];
      unit[pos] := null;
      tmp.flag := 0;
      unitQueue.count := unitQueue.count - 1;
      win, slots := win[k := null], slots[k := None];
      forall j | 0 <= j < size
        ensures Matches(win[j], slots[j])
      {
        assert old(Matches(win[j], slots[j]));
      }
    }

    /** Marks a unit as read but keeps it. */
    method MarkRead(pos: nat, ghost k: nat, ghost u: Unit)
      requires Ring() && k < size && pos == Pos(startPos, k, size) && win[k] == u
      modifies u`flag, this`slots
      ensures Ring() && Elsewhere() == old(Elsewhere())
      ensures slots == old(slots)[k := MarkSlot(old(slots)[k])]
    {
      assert Matches(win[k], slots[k]);
      OccupiedUpdate(slots, k, MarkSlot(slots[k]));
      unit[pos].flag := 2;
      slots := slots[k := MarkSlot(slots[k])];
      forall j | 0 <= j < size
        ensures Matches(win[j], slots[j])
      {
        assert old(Matches(win[j], slots[j]));
      }
    }

    /** Strikes out a unit that is held. */
    method Strike(pos: nat, ghost k: nat, ghost u: Unit)
      requires Ring() && k < size && pos == Pos(startPos, k, size) && win[k] == u
      modifies u`flag, this`slots
      ensures Ring() && Elsewhere() == old(Elsewhere()) && u.flag == 3
      ensures old(slots[k]).Some? && slots == old(slots)[k := Some(Slot(u.packet, 3))]
    {
      assert Matches(win[k], slots[k]);
      OccupiedUpdate(slots, k, Some(Slot(u.packet, 3)));
      unit[pos].flag := 3;
      slots := slots[k := Some(Slot(u.packet, 3))];
      forall j | 0 <= j < size
        ensures Matches(win[j], slots[j])
      {
        assert old(Matches(win[j], slots[j]));
      }
    }

    /** Sets m_iStartPos k places on, over slots already empty. */
    method MoveStart(pos: nat, ghost k: nat)
      requires Ring() && k <= acked && pos == Pos(startPos, k, size)
      requires forall j :: 0 <= j < k ==> slots[j].None?
      modifies this`startPos, this`win, this`slots, this`acked, this`base
      ensures Ring() && Elsewhere() == old(Elsewhere())
      ensures slots == old(slots)[k..] + seq(k, _ => None) && acked == old(acked) - k && base == old(base) + k
      ensures win == old(win)[k..] + old(win)[..k]
    {
      ghost var none: seq<Option<Slot>> := seq(k, _ => None);
      OccupiedShift(slots, k);
      ghost var win', slots' := win[k..] + win[..k], slots[k..] + none;
      forall j | 0 <= j < size
        ensures Matches(win'[j], slots'[j])
        ensures win'[j] == unit[Pos(pos, j, size)]
      {
        var i := if j < size - k then j + k else j + k - size;
        assert Matches(win[i], slots[i]) && win'[j] == win[i];
      }
      Rotated(win, k);
      startPos, acked, base, win, slots := pos, acked - k, base + k, win', slots';
    }

    /** The units held are among these, and of these exactly the ones not held have flag 0. */
    ghost predicate Tally(units: set<Unit>)
      reads this, units
    {
      && (forall j :: 0 <= j < |win| && win[j] != null ==> win[j] in units)
      && (forall u :: u in units ==> (u.flag == 0 <==> u !in win))
    }

    /** The tally survives whatever only lets units go. */
    lemma TallyKept(was: seq<Unit?>, units: set<Unit>)
      requires Valid() && LetGo(was)
      requires forall j :: 0 <= j < |was| && was[j] != null ==> was[j] in units
      requires forall u :: u in units && u !in was ==> u.flag == 0
      ensures Tally(units)
    {
      forall u | u in units && u.flag == 0
        ensures u !in win
      {
        NotHeld(u);
      }
    }

    /** Stores a packet `offset` places after the acknowledgement point; -1 exactly when that
        place is taken, and then the stored packet stays. */
    method AddData(u: Unit, offset: nat, ghost units: set<Unit>) returns (r: int)
      requires Valid() && Tally(units)
      requires offset < AvailSize(View())
      requires u.flag == 0
      modifies this, unit, unitQueue, u
      ensures Valid() && Elsewhere() == old(Elsewhere())
      ensures View() == UdtWindow.AddData(old(View()), old(u.packet), offset)
      ensures r == (if old(slots[acked + offset]).Some? then -1 else 0)
      ensures u.flag == if r == 0 then 1 else 0
      ensures win == if r == 0 then old(win)[old(acked) + offset := u] else old(win)
      ensures Tally(units + {u})
    {
      AddDataValid(View(), u.packet, offset);
      NotHeld(u);
      assert TallyBut(win, u, units);
      hide ValidWindow, Occupied, Tally;
      var pos := RingIndex(lastAckPos + offset, size);
      ghost var k := acked + offset;
      assert pos == Pos(startPos, k, size) && win[k] == unit[pos] && Matches(win[k], slots[k]);
      if offset > maxPos {
        maxPos := offset;
      }
      if unit[pos] != null {
        TallySame(old(win), u, units);
        return -1;
      }
      Fill(pos, u, k);
      TallyAdded(old(win), k, u, units);
      return 0;
    }

    lemma TallySame(was: seq<Unit?>, u: Unit, units: set<Unit>)
      requires win == was && u !in win && u.flag == 0
      requires TallyBut(was, u, units)
      ensures Tally(units + {u})
    {
    }

    /** The tally over all units but one. */
    ghost predicate TallyBut(was: seq<Unit?>, u: Unit, units: set<Unit>)
      reads units
    {
      && (forall j :: 0 <= j < |was| && was[j] != null ==> was[j] in units)
      && (forall v :: v in units && v != u ==> (v.flag == 0 <==> v !in was))
    }

    lemma TallyAdded(was: seq<Unit?>, k: nat, u: Unit, units: set<Unit>)
      requires k < |was| && was[k] == null && win == was[k := u] && u !in was && u.flag != 0
      requires TallyBut(was, u, units)
      ensures Tally(units + {u})
    {
      assert win[k] == u;
      forall v: Unit | v in units && v != u
        ensures v in win <==> v in was
      {
        assert forall j :: 0 <= j < |was| && j != k ==> win[j] == was[j];
      }
    }

    lemma NotHeld(u: Unit)
      requires Valid() && u.flag == 0
      ensures u !in win
    {
      forall j | 0 <= j < size
        ensures win[j] != u
      {
        assert Matches(win[j], slots[j]);
      }
    }

    method AckData(len: nat, ghost units: set<Unit>)
      requires Valid() && Tally(units)
      requires acked + len < size
      modifies this
      ensures Valid() && win == old(win) && Elsewhere() == old(Elsewhere()) && Tally(units)
      ensures View() == UdtWindow.AckData(old(View()), len)
    {
      AckDataValid(View(), len);
      lastAckPos := RingIndex(lastAckPos + len, size);
      maxPos := if maxPos < len then 0 else maxPos - len;
      acked := acked + len;
    }

    /** The units held are among those held before, and those let go have flag 0. */
    ghost predicate LetGo(was: seq<Unit?>)
      reads this, was
    {
      && (forall i :: 0 <= i < |win| && win[i] != null ==> win[i] in was)
      && (forall i :: 0 <= i < |was| && was[i] != null && was[i] !in win ==> was[i].flag == 0)
    }

    /** Frees the front slot and steps over it. */
    method FreeFront(ghost u: Unit)
      requires Valid() && notch == 0 && acked > 0 && win[0] == u
      modifies this, unit, unitQueue, u
      ensures Valid() && Elsewhere() == old(Elsewhere()) && LetGo(old(win))
      ensures View() == DropFront(old(View()))
    {
      DropFrontValid(View());
      Clear(startPos, 0, u);
      MoveStart(Next(startPos), 1);
    }

    /** Steps over an empty front slot. */
    method SkipHole()
      requires Valid() && notch == 0 && acked > 0 && win[0] == null
      modifies this
      ensures Valid() && Elsewhere() == old(Elsewhere()) && LetGo(old(win))
      ensures View() == DropFront(old(View()))
    {
      DropFrontValid(View());
      assert Matches(win[0], slots[0]);
      MoveStart(Next(startPos), 1);
    }

    function Next(p: nat): nat
      reads this
    {
      if p + 1 == size then 0 else p + 1
    }

    /** What a turn of the loop of readBuffer does after copying unitsize of at most rs bytes. */
    method Consume(rs: nat, unitsize: nat, ghost u: Unit)
      requires Valid() && Contiguous(View()) && acked > 0 && rs > 0 && win[0] == u
      requires unitsize == |Turn(View(), rs).1|
      modifies this, unit, unitQueue, u
      ensures Valid() && Elsewhere() == old(Elsewhere()) && LetGo(old(win))
      ensures View() == Turn(old(View()), rs).0
    {
      TurnValid(View(), rs);
      assert win[0] == unit[startPos] && Matches(win[0], slots[0]);
      if rs > unitsize || rs == |unit[startPos].packet.data| - notch {
        notch := 0;
        FreeFront(u);
      } else {
        notch := notch + rs;
      }
    }

    method ReadFront(data: array<byte>, off: nat, rs: nat, ghost u: Unit) returns (unitsize: nat)
      requires Valid() && Contiguous(View()) && acked > 0 && rs > 0 && off + rs <= data.Length && win[0] == u
      modifies this, unit, unitQueue, data, u
      ensures Valid() && Elsewhere() == old(Elsewhere()) && LetGo(old(win))
      ensures View() == Turn(old(View()), rs).0
      ensures unitsize == |Turn(old(View()), rs).1| && data[..off + unitsize] == old(data[..off]) + Turn(old(View()), rs).1
    {
      assert win[0] == unit[startPos] && Matches(win[0], slots[0]);
      var bytes := unit[startPos].packet.data;
      unitsize := |bytes| - notch;
      if unitsize > rs {
        unitsize := rs;
      }
      assert bytes[notch..notch + unitsize] == Turn(View(), rs).1;
      CopyOut(bytes, notch, unitsize, data, off);
      Consume(rs, unitsize, u);
    }

    method ReadBuffer(data: array<byte>, len: int, ghost units: set<Unit>) returns (n: int)
      requires Valid() && Contiguous(View()) && Tally(units)
      requires len <= data.Length
      modifies this, unit, unitQueue, data, win
      ensures Valid() && Elsewhere() == old(Elsewhere()) && LetGo(old(win))
      ensures View() == Read(old(View()), len).0
      ensures 0 <= n <= data.Length && data[..n] == Read(old(View()), len).1
      ensures Tally(units)
    {
      var rs, off := len, 0;
      hide Turn, Occupied, ValidWindow;
      ghost var w, goal := View(), Read(View(), len);
      while startPos != lastAckPos && rs > 0
        invariant Valid() && View() == w && Contiguous(w) && Elsewhere() == old(Elsewhere()) && LetGo(old(win))
        invariant 0 <= off <= data.Length && off + rs == len
        invariant Read(w, rs).0 == goal.0 && data[..off] + Read(w, rs).1 == goal.1
        decreases acked, rs
      {
        assert win[0] == unit[startPos] && Matches(win[0], slots[0]);
        ReadStep(w, rs, data[..off]);
        var unitsize := ReadFront(data, off, rs, unit[startPos]);
        off := off + unitsize;
        rs := rs - unitsize;
        w := View();
      }
      n := len - rs;
      TallyKept(old(win), units);
    }

    /** Strikes out what the buffer holds of a message, as far as its words carry no flag bit. */
    method DropMsg(msgno: bv32, ghost units: set<Unit>)
      requires Valid() && Tally(units)
      modifies this`slots, win
      ensures Valid() && Elsewhere() == old(Elsewhere()) && Tally(units)
      ensures View() == UdtWindow.DropMsg(old(View()), msgno)
    {
      DropMsgValid(View(), msgno);
      ghost var w, k := View(), 0;
      hide ValidWindow, Occupied, StruckTo;
      StruckStep(w.slots, 0, msgno);
      var i, n := startPos, RingIndex(lastAckPos + maxPos, size);
      while i != n
        invariant k <= acked + maxPos < size && i == Pos(startPos, k, size)
        invariant Ring() && Elsewhere() == old(Elsewhere()) && Tally(units)
        invariant slots == StruckTo(w.slots, k, msgno)
        decreases acked + maxPos - k
      {
        StruckStep(w.slots, k, msgno);
        assert win[k] == unit[i] && Matches(win[k], slots[k]);
        if unit[i] != null && unit[i].packet.msgNo == msgno {
          Strike(i, k, unit[i]);
        }
        i := Next(i);
        k := k + 1;
      }
      assert View() == UdtWindow.DropMsg(w, msgno);
    }

    /** The look-ahead of the first pass of scanMsg. */
    method LooksGood() returns (good: bool)
      requires Valid() && acked > 0
      ensures good == LookAhead(View(), 0)
    {
      var i := startPos;
      ghost var k := 0;
      while i != lastAckPos
        invariant k <= acked && i == Pos(startPos, k, size)
        invariant LookAhead(View(), k) == LookAhead(View(), 0)
        decreases acked - k
      {
        assert win[k] == unit[i] && Matches(win[k], slots[k]);
        if unit[i] == null || unit[i].flag != 1 {
          return false;
        }
        if Boundary(unit[i].packet) == 1 || Boundary(unit[i].packet) == 3 {
          return true;
        }
        i := Next(i);
        k := k + 1;
      }
      return true;
    }

    /** First pass of scanMsg. */
    method SkipBadMessages()
      requires Valid() && notch == 0
      modifies this, unit, unitQueue, win
      ensures Valid() && notch == 0 && Elsewhere() == old(Elsewhere()) && LetGo(old(win))
      ensures View() == SkipBad(old(View()))
    {
      hide LookAhead, Occupied;
      while startPos != lastAckPos
        invariant Valid() && notch == 0 && Elsewhere() == old(Elsewhere()) && LetGo(old(win))
        invariant SkipBad(View()) == SkipBad(old(View()))
        decreases acked
      {
        assert win[0] == unit[startPos] && Matches(win[0], slots[0]);
        if unit[startPos] == null {
          SkipHole();
        } else {
          if unit[startPos].flag == 1 && Boundary(unit[startPos].packet) > 1 {
            var good := LooksGood();
            if good {
              break;
            }
          }
          FreeFront(unit[startPos]);
        }
      }
    }

    /** What the ring positions scanMsg returns mean. */
    ghost predicate Locates(r: ScanResult, found: bool, p: int, q: nat, passack: bool)
      reads this
    {
      match r
      case NotFound => !found
      case Found(p', q', passack') =>
        found && q' < size && p == Pos(startPos, p', size) && q == Pos(startPos, q', size) && passack == passack'
      case Overflow(p') =>
        found && p' < size && p == Pos(startPos, p', size) && q < size && Next(q) == p && passack
    }

    /** Second pass of scanMsg; p and q are ring positions, p is -1 when there is none. */
    method FindMessage() returns (found: bool, p: int, q: nat, passack: bool)
      requires Valid()
      ensures Locates(Find(View(), 0, None), found, p, q, passack)
    {
      hide Occupied;
      p, q, passack, found := -1, startPos, startPos == lastAckPos, false;
      ghost var head: Option<nat> := None;
      ghost var goal := Find(View(), 0, None);
      var received := GetRcvDataSize();
      var i, n := 0, maxPos + received;
      while i <= n
        invariant i <= n + 1 && n == maxPos + acked && !found
        invariant q == Pos(startPos, i, size) && passack == (i >= acked)
        invariant head.Some? ==> head.value < i && p == Pos(startPos, head.value, size)
        invariant head.None? ==> p == -1
        invariant Find(View(), i, head) == goal
      {
        assert win[i] == unit[q] && Matches(win[i], slots[i]);
        if unit[q] != null && unit[q].flag == 1 {
          var b := Boundary(unit[q].packet);
          if b == 3 {
            p := q;
            head := Some(i);
            found := true;
          } else if b == 2 {
            p := q;
            head := Some(i);
          } else if b == 1 {
            if p != -1 {
              found := true;
            }
          }
        } else {
          p := -1;
          head := None;
        }
        if found {
          if !passack || !InOrder(unit[q].packet) {
            return;
          }
          found := false;
        }
        q := Next(q);
        if q == lastAckPos {
          passack := true;
        }
        i := i + 1;
      }
      if p != -1 && Next(q) == p {
        found := true;
      }
    }

    method ScanMsg(ghost units: set<Unit>) returns (found: bool, p: int, q: nat, passack: bool)
      requires Valid() && notch == 0 && Tally(units)
      modifies this, unit, unitQueue, win
      ensures Valid() && notch == 0 && Elsewhere() == old(Elsewhere()) && LetGo(old(win))
      ensures View() == Scan(old(View())).0
      ensures Locates(Scan(old(View())).1, found, p, q, passack)
      ensures Tally(units)
    {
      if startPos == lastAckPos && maxPos <= 0 {
        return false, -1, 0, false;
      }
      SkipBadMessages();
      TallyKept(old(win), units);
      found, p, q, passack := FindMessage();
    }

    /** Frees a slot of a message being read, or marks it. */
    method TakeSlot(pos: nat, passack: bool, ghost k: nat, ghost u: Unit, ghost was: seq<Unit?>)
      requires Ring() && k < size && pos == Pos(startPos, k, size) && win[k] == u && LetGo(was)
      modifies unit, u`flag, unitQueue, this`win, this`slots
      ensures Ring() && Elsewhere() == old(Elsewhere()) && LetGo(was)
      ensures slots == old(slots)[k := if passack then MarkSlot(old(slots)[k]) else None]
    {
      if !passack {
        Clear(pos, k, u);
        assert forall i :: 0 <= i < size && i != k ==> old(win)[i] == win[i];
        assert forall v :: v in old(win) && v != u && v != null ==> v in win;
      } else {
        MarkRead(pos, k, u);
      }
    }

    /** A turn of the loop of readMsg: copies the packet in slot k and takes the slot. */
    method CopySlot(data: array<byte>, len: nat, rs: nat, p: nat, passack: bool,
                    ghost w: Window, ghost a: nat, ghost k: nat, ghost u: Unit, ghost was: seq<Unit?>)
      returns (rs': nat)
      requires Ring() && LetGo(was) && rs <= len <= data.Length && |w.slots| == size
      requires a <= k < size && p == Pos(startPos, k, size) && win[k] == u
      requires slots[k] == w.slots[k] && forall j :: a <= j <= k ==> w.slots[j].Some?
      requires data[..len - rs] == Taken(Gather(w, a, k), len)
      modifies unit, u`flag, unitQueue, data, this`win, this`slots
      ensures Ring() && Elsewhere() == old(Elsewhere()) && LetGo(was) && rs' <= rs
      ensures slots == old(slots)[k := if passack then MarkSlot(old(slots)[k]) else None]
      ensures data[..len - rs'] == Taken(Gather(w, a, k + 1), len)
    {
      hide Gather, Taken, Occupied;
      assert win[k] == unit[p] && Matches(win[k], slots[k]);
      CopyStep(w, a, k, len, data[..len - rs], rs);
      rs' := CopyClipped(unit[p].packet.data, data, len - rs, rs);
      TakeSlot(p, passack, k, u, was);
    }

    lemma HeldAt(k: nat, pos: nat)
      requires Ring() && k < size && pos == Pos(startPos, k, size) && slots[k].Some?
      ensures pos < size && win[k] == unit[pos] != null
    {
      assert Matches(win[k], slots[k]);
    }

    /** The loop of readMsg over a found message. */
    method CopyMessage(data: array<byte>, len: nat, head: nat, q: nat, passack: bool, ghost a: nat, ghost b: nat)
      returns (n: nat)
      requires Valid() && len <= data.Length
      requires a <= b < size && forall j :: a <= j < b ==> slots[j].Some?
      requires head == Pos(startPos, a, size) && q < size && Next(q) == Pos(startPos, b, size)
      modifies unit, unitQueue, data, win, this`win, this`slots
      ensures Ring() && Elsewhere() == old(Elsewhere()) && LetGo(old(win))
      ensures slots == Touched(old(slots), a, b, passack)
      ensures n <= len && data[..n] == Taken(Gather(old(View()), a, b), len)
    {
      ghost var w, k := View(), a;
      assert Gather(w, a, a) == [] && Taken([], len) == [];
      assert LetGo(win);
      hide Touched, Gather, Taken, ValidWindow, Occupied, LetGo, Matches, Pos;
      TouchedStep(slots, a, a, passack);
      var p, rs := head, len;
      while p != Next(q)
        invariant a <= k <= b && p == Pos(startPos, k, size)
        invariant Ring() && Elsewhere() == old(Elsewhere()) && LetGo(old(win))
        invariant slots == Touched(w.slots, a, k, passack)
        invariant 0 <= rs <= len && data[..len - rs] == Taken(Gather(w, a, k), len)
        decreases b - k
      {
        TouchedStep(w.slots, a, k, passack);
        HeldAt(k, p);
        rs := CopySlot(data, len, rs, p, passack, w, a, k, unit[p], old(win));
        p := Next(p);
        k := k + 1;
      }
      n := len - rs;
    }

    /** Sets the start position past the slots of a message taken out. */
    method SkipTaken(pos: nat, ghost k: nat, ghost was: seq<Unit?>)
      requires Ring() && k <= acked && pos == Pos(startPos, k, size) && LetGo(was)
      requires forall j :: 0 <= j < k ==> slots[j].None?
      modifies this`startPos, this`win, this`slots, this`acked, this`base
      ensures Ring() && Elsewhere() == old(Elsewhere()) && LetGo(was)
      ensures slots == old(slots)[k..] + seq(k, _ => None) && acked == old(acked) - k && base == old(base) + k
    {
      ghost var before := win;
      MoveStart(pos, k);
      assert forall i :: 0 <= i < size ==> before[i] == win[if i < k then size - k + i else i - k];
      assert forall i :: 0 <= i < size ==> win[i] == before[if i < size - k then i + k else i + k - size];
    }

    /** readMsg after scanMsg has found something. */
    method TakeMessage(data: array<byte>, len: nat, p: int, q: nat, passack: bool, ghost r: ScanResult) returns (n: nat)
      requires Valid() && notch == 0 && Takeable(View(), r) && !r.NotFound? && Locates(r, true, p, q, passack)
      requires len <= data.Length
      modifies this, unit, unitQueue, data, win
      ensures Valid() && notch == 0 && Elsewhere() == old(Elsewhere()) && LetGo(old(win))
      ensures View() == Take(old(View()), r, len).0
      ensures n <= len && data[..n] == Take(old(View()), r, len).1
    {
      TakeValid(View(), r, len);
      ghost var w, a, b := View(), r.p, if r.Found? then r.q + 1 else r.p;
      TakeByTouching(w, r, len);
      LocatesEnds(r, p, q, passack);
      hide ValidWindow, Occupied, Gather, Taken, Touched, Take, Present, Locates;
      n := CopyMessage(data, len, p, q, passack, a, b);
      if !passack {
        SkipTaken(Next(q), b, old(win));
      }
      assert View() == Take(w, r, len).0;
    }

    lemma LocatesEnds(r: ScanResult, p: int, q: nat, passack: bool)
      requires Ring() && Locates(r, true, p, q, passack) && Present(View(), r) && !r.NotFound?
      requires r.Found? ==> r.q + 1 < size
      ensures passack == (r.Overflow? || r.passack) && q < size
      ensures r.p < size && p == Pos(startPos, r.p, size)
      ensures Next(q) == Pos(startPos, if r.Found? then r.q + 1 else r.p, size)
    {
    }

    /** Delivers a message: copies its first len bytes and frees it, or marks it read if it is
        not acknowledged yet. Returns 0 when there is none, and also after an overflow. */
    method ReadMsg(data: array<byte>, len: nat, ghost units: set<Unit>) returns (n: nat)
      requires Valid() && notch == 0 && WellBounded(View()) && Tally(units)
      requires len <= data.Length
      modifies this, unit, unitQueue, data, win
      ensures Valid() && notch == 0 && Elsewhere() == old(Elsewhere()) && LetGo(old(win))
      ensures View() == UdtScan.ReadMsg(old(View()), len).0
      ensures n <= len && data[..n] == UdtScan.ReadMsg(old(View()), len).1
      ensures Tally(units)
    {
      ScanTakeable(View());
      ghost var w, r := Scan(View()).0, Scan(View()).1;
      var found, p, q, passack := ScanMsg(units);
      if !found {
        return 0;
      }
      n := TakeMessage(data, len, p, q, passack, r);
      TallyKept(old(win), units);
    }
  }
}
