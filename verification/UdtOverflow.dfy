/** The fallback at the end of scanMsg (src/udt/newlib/buffer.cpp), meant for a message larger than
    the receiving buffer: when it is taken, and what readMsg then does. */
module UdtOverflow {
  import opened Prelude
  import opened UdtPackets
  import opened UdtWindow
  import opened UdtScan

  function Span(w: Window): nat {
    w.acked + w.maxPos + 1
  }

  /** Every slot but the one always kept empty holds one message, from slot 0 on, that has not ended
      or may not be handed out yet. */
  ghost predicate Choked(w: Window) {
    && Span(w) + 1 == |w.slots|
    && Following(w, Span(w), Some(0))
    && !Deliverable(w, 0, Span(w) - 1)
  }

  lemma {:induction false} OverflowFollows(w: Window, i: nat, p: Option<nat>)
    requires ValidWindow(w) && WellBounded(w) && i <= Span(w) && Following(w, i, p)
    ensures var r := Find(w, i, p);
      r.Overflow? ==> Following(w, Span(w), Some(r.p)) && Wrap(Wrap(Span(w), |w.slots|) + 1, |w.slots|) == r.p
    decreases Span(w) - i
  {
    if i < Span(w) {
      if Unread(w.slots[i]) {
        var p' := if Begins(w.slots[i].value.packet) then Some(i) else p;
        if p.Some? && !Begins(w.slots[i].value.packet) {
          assert !Ends(w.slots[i - 1].value.packet);
        }
        OverflowFollows(w, i + 1, p');
      } else {
        OverflowFollows(w, i + 1, None);
      }
    }
  }

  lemma {:induction false} ChokedOverflows(w: Window, i: nat)
    requires ValidWindow(w) && WellBounded(w) && Choked(w) && i <= Span(w)
    ensures Find(w, i, if i == 0 then None else Some(0)) == Overflow(0)
    decreases Span(w) - i
  {
    if i < Span(w) {
      assert Unread(w.slots[i]);
      if i > 0 {
        assert !Ends(w.slots[i - 1].value.packet) && w.slots[i - 1 + 1].Some?;
      }
      ChokedOverflows(w, i + 1);
    }
  }

  lemma OverflowIff(w: Window)
    requires ValidWindow(w) && WellBounded(w)
    ensures Find(w, 0, None).Overflow? <==> Choked(w)
  {
    if Choked(w) {
      ChokedOverflows(w, 0);
    }
    OverflowFollows(w, 0, None);
    if Deliverable(w, 0, Span(w) - 1) {
      FindComplete(w, 0, None, 0, Span(w) - 1);
    }
  }

  /** Then readMsg delivers nothing and changes nothing, now and whenever it is called again before
      more packets arrive or are acknowledged. */
  lemma OverflowDeliversNothing(w: Window, len: nat)
    requires ValidWindow(w) && Scannable(w) && WellBounded(w)
    requires Scan(w).1.Overflow?
    ensures Choked(Scan(w).0) && ReadMsg(w, len) == (Scan(w).0, [])
    ensures Scan(Scan(w).0) == Scan(w)
  {
    var k := ScanMoves(w);
    OverflowIff(Scan(w).0);
  }
}
