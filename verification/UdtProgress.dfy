/** Progress in stream mode: whatever has been lost so far, a run can go on until everything given to
    addBuffer has been read (src/udt/newlib/buffer.cpp). */
module UdtProgress {
  import opened Prelude
  import opened UdtPackets
  import opened UdtSender
  import opened UdtWindow
  import opened UdtTransfer
  import opened UdtStreamMode

  /** A read of more bytes than there are empties the acknowledged part. */
  lemma {:induction false} ReadEmpties(w: Window, n: nat)
    requires Contiguous(w) && n > |Stream(w)|
    ensures UdtWindow.Read(w, n).0.acked == 0
    decreases w.acked
  {
    if w.acked > 0 {
      TurnStream(w, n);
      var (w', bytes) := Turn(w, n);
      assert |Stream(w)| == |bytes| + |Stream(w')|;
      if w'.acked < w.acked {
        ReadEmpties(w', n - |bytes|);
      }
    }
  }

  /** What the rest of a run leaves alone: nothing new is given, and the receiver's buffer stays. */
  ghost predicate Same(s: System, t: System) {
    t.messages == s.messages && t.log == s.log && |t.rcv.slots| == |s.rcv.slots|
  }

  lemma ReadAll(s: System) returns (n: nat, t: System)
    requires StreamInv(s)
    ensures Leads(s, Event.Read(n), t) && StreamInv(t) && Same(s, t)
    ensures t.rcv.acked == 0 && AckPoint(t) == AckPoint(s)
  {
    n := |Stream(s.rcv)| + 1;
    t := Next(s, Event.Read(n));
    ReadNext(s, n);
    var k := ReadShifts(s.rcv, n);
    ReadEmpties(s.rcv, n);
    hide StreamInv;
  }

  /** The packet at the acknowledgement point can be sent now, for the first time or again. */
  function SendNext(s: System): Event
    requires AckPoint(s) >= s.sndAcked
  {
    if AckPoint(s) == SentEnd(s) then Transmit else Retransmit(AckPoint(s) - s.sndAcked)
  }

  lemma CanSendNext(s: System)
    requires Inv(s) && AckPoint(s) < |s.log|
    ensures Sound(s) && Enabled(s, SendNext(s)) && Clear(s, SendNext(s))
    ensures var offset := AckPoint(s) - s.sndAcked;
      && offset < |s.snd.packets| && (SendNext(s).Transmit? ==> offset == s.snd.sent)
      && var t := Next(s, SendNext(s));
         t == s.(snd := t.snd, next := t.next, net := s.net + {(AckPoint(s), s.snd.packets[offset])})
  {
    hide InNet, Bounded, Forgets, Mirrors;
  }

  lemma Resend(s: System) returns (t: System)
    requires Inv(s) && AckPoint(s) < |s.log|
    ensures Leads(s, SendNext(s), t) && Clear(s, SendNext(s)) && Inv(t)
    ensures t == s.(snd := t.snd, next := t.next, net := t.net)
    ensures (AckPoint(s), s.log[AckPoint(s)]) in t.net
  {
    var offset := AckPoint(s) - s.sndAcked;
    SendsAt(s.snd, s.sndAcked, s.log, offset);
    CanSendNext(s);
    t := Next(s, SendNext(s));
    hide Inv, Next, Enabled, Sound, Clear;
    if AckPoint(s) == SentEnd(s) {
      TransmitInv(s);
    } else {
      RetransmitInv(s, offset);
    }
  }

  lemma ComesIn(s: System) returns (t: System)
    requires Inv(s) && AckPoint(s) < |s.log| && AvailSize(s.rcv) > 0 && (AckPoint(s), s.log[AckPoint(s)]) in s.net
    ensures Leads(s, Arrive(AckPoint(s), s.log[AckPoint(s)]), t) && Inv(t)
    ensures t == s.(rcv := t.rcv) && t.rcv.base == s.rcv.base && t.rcv.acked == s.rcv.acked
    ensures |t.rcv.slots| == |s.rcv.slots| && t.rcv.slots[t.rcv.acked].Some?
  {
    StepInv(s, Arrive(AckPoint(s), s.log[AckPoint(s)]));
    t := Next(s, Arrive(AckPoint(s), s.log[AckPoint(s)]));
  }

  lemma Confirm(s: System) returns (t: System)
    requires Inv(s) && s.rcv.acked + 1 < |s.rcv.slots| && s.rcv.slots[s.rcv.acked].Some?
    ensures Leads(s, Event.Acknowledge(1), t) && Inv(t)
    ensures t == s.(rcv := AckData(s.rcv, 1), acks := t.acks)
  {
    StepInv(s, Event.Acknowledge(1));
    t := Next(s, Event.Acknowledge(1));
  }

  /** Sent, received and acknowledged: one packet more. */
  lemma OnePacket(s: System) returns (es: seq<Event>, t: System)
    requires Inv(s) && AckPoint(s) < |s.log| && AvailSize(s.rcv) > 0
    ensures Run(s, es, t) && Inv(t) && Same(s, t) && t.stream == s.stream
    ensures AckPoint(t) == AckPoint(s) + 1 && t.rcv.base == s.rcv.base
    ensures t.deliveries == s.deliveries && t.gone == s.gone && |es| == 3 && ClearRun(s, es, t)
  {
    hide Leads, Inv, Run, ClearRun, Clear, Sound, Enabled, Next;
    var arrive, ack := Arrive(AckPoint(s), s.log[AckPoint(s)]), Event.Acknowledge(1);
    var a := Resend(s);
    var b := ComesIn(a);
    t := Confirm(b);
    RunNone(t);
    RunClear(b, ack, t, [], t);
    RunClear(a, arrive, b, [ack] + [], t);
    RunClear(s, SendNext(s), a, [arrive] + ([ack] + []), t);
    es := [SendNext(s)] + ([arrive] + ([ack] + []));
  }

  lemma RunNone(s: System)
    ensures Run(s, [], s) && ClearRun(s, [], s)
  {
  }

  lemma RunClear(s: System, e: Event, t: System, es: seq<Event>, u: System)
    requires Leads(s, e, t) && (e.Expire? ==> Clear(s, e)) && Run(t, es, u) && ClearRun(t, es, u)
    ensures Run(s, [e] + es, u) && ClearRun(s, [e] + es, u)
  {
    assert ([e] + es)[1..] == es;
  }

  // ---- Stream mode ----

  /** Packet by packet, until everything has been read. */
  lemma {:induction false} ReadsOn(s: System) returns (es: seq<Event>, t: System)
    requires StreamInv(s) && |s.rcv.slots| >= 2
    ensures Run(s, es, t) && StreamInv(t) && Same(s, t)
    ensures t.rcv.acked == 0 && AckPoint(t) == |t.log|
    decreases |s.log| - AckPoint(s)
  {
    var n, a := ReadAll(s);
    RunNone(a);
    if AckPoint(a) == |a.log| {
      t := a;
      hide Leads, StreamInv, Run;
      RunCons(s, Event.Read(n), a, [], a);
      es := [Event.Read(n)] + [];
    } else {
      var step, b := OnePacket(a);
      RunStream(a, step, b);
      hide Leads, StreamInv, Run, Inv;
      var rest;
      rest, t := ReadsOn(b);
      RunConcat(a, step, b, rest, t);
      RunCons(s, Event.Read(n), a, step + rest, t);
      es := [Event.Read(n)] + (step + rest);
    }
  }

  /** Some way of going on reads all bytes given so far. */
  ghost predicate CanComplete(s: System) {
    exists es, t :: Run(s, es, t) && t.messages == s.messages && t.read == Given(t.messages)
  }

  /** With one slot nothing is ever stored. */
  lemma {:induction false} OneSlotReadsNothing(s: System, es: seq<Event>, t: System)
    requires StreamInv(s) && Run(s, es, t) && |s.rcv.slots| == 1 && AckPoint(s) == 0
    ensures t.read == []
    decreases |es|
  {
    if es == [] {
      assert s.log[..0] == [];
    } else {
      OneSlotStays(s, es[0]);
      StepStream(s, es[0]);
      OneSlotReadsNothing(Next(s, es[0]), es[1..], t);
    }
  }

  lemma OneSlotStays(s: System, e: Event)
    requires StreamInv(s) && Enabled(s, e) && |s.rcv.slots| == 1 && AckPoint(s) == 0
    ensures |Next(s, e).rcv.slots| == 1 && AckPoint(Next(s, e)) == 0
  {
    if e.Read? {
      var k := ReadShifts(s.rcv, e.len);
    }
  }

  lemma {:induction false} RunSlots(s: System, es: seq<Event>, t: System)
    requires StreamInv(s) && Run(s, es, t)
    ensures |t.rcv.slots| == |s.rcv.slots|
    decreases |es|
  {
    if es != [] {
      StepSlots(s, es[0]);
      StepStream(s, es[0]);
      RunSlots(Next(s, es[0]), es[1..], t);
    }
  }

  lemma StepSlots(s: System, e: Event)
    requires StreamInv(s) && Enabled(s, e)
    ensures |Next(s, e).rcv.slots| == |s.rcv.slots|
  {
    if e.Read? {
      var k := ReadShifts(s.rcv, e.len);
    }
  }

  /** From every reachable state of stream mode, whatever has been lost: everything given can still be
      read exactly when the receiving buffer has two slots or more, or nothing has been given. */
  lemma CanCompleteIff(size: nat, mss: nat, es: seq<Event>, s: System)
    requires size > 0 && mss > 0 && Run(Start(true, size, mss), es, s)
    ensures CanComplete(s) <==> size >= 2 || Given(s.messages) == []
  {
    var s0 := Start(true, size, mss);
    StartInv(true, size, mss);
    RunStream(s0, es, s);
    RunSlots(s0, es, s);
    if size >= 2 {
      var more, t := ReadsOn(s);
      assert t.log[..|t.log|] == t.log;
      assert Stream(t.rcv) == [] && t.read + [] == t.read;
    } else {
      OneSlotReadsNothing(s0, es, s);
      RunNone(s);
      if CanComplete(s) {
        var more, t :| Run(s, more, t) && t.messages == s.messages && t.read == Given(t.messages);
        RunConcat(s0, es, s, more, t);
        OneSlotReadsNothing(s0, es + more, t);
      }
    }
  }
}
