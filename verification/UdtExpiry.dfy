/** Expired messages (src/udt/newlib/buffer.cpp): giving one up skips the rest of that message and
    nothing else. */
module UdtExpiry {
  import opened UdtPackets
  import opened UdtNumbers
  import opened UdtSender
  import opened UdtTransfer
  import opened UdtMessageMode

  ghost predicate NoneEmpty(ms: seq<Message>) {
    forall k :: 0 <= k < |ms| ==> ms[k].data != []
  }

  /** A packet of message m carries its number, which no neighbouring message has. */
  lemma NumbersAt(ms: seq<Message>, mss: nat, m: nat, k: nat)
    requires mss > 0 && m < |ms| && NoneEmpty(ms) && FirstOf(ms, mss, m) <= k < FirstOf(ms, mss, m + 1)
    ensures k < |LogOf(ms, mss)| && MsgSeq(LogOf(ms, mss)[k]) == NoAt(m)
  {
    LogHolds(ms, mss, m);
    NoAtInRange(m);
    ChopNumbers(ms[m].data, mss, NoAt(m), ms[m].order);
    hide Chop, LogOf, MsgSeq;
    var a := FirstOf(ms, mss, m);
    assert LogOf(ms, mss)[k] == LogOf(ms, mss)[a..FirstOf(ms, mss, m + 1)][k - a];
  }

  lemma EndOfMessage(ms: seq<Message>, mss: nat, m: nat, i: nat)
    requires mss > 0 && m < |ms| && NoneEmpty(ms) && FirstOf(ms, mss, m) <= i <= FirstOf(ms, mss, m + 1)
    ensures FirstOf(ms, mss, m + 1) <= |LogOf(ms, mss)|
    ensures RunEnd(LogOf(ms, mss), NoAt(m), i) == FirstOf(ms, mss, m + 1)
  {
    LogHolds(ms, mss, m);
    var e := FirstOf(ms, mss, m + 1);
    forall k | i <= k < e
      ensures MsgSeq(LogOf(ms, mss)[k]) == NoAt(m)
    {
      NumbersAt(ms, mss, m, k);
    }
    if m + 1 < |ms| {
      LogHolds(ms, mss, m + 1);
      NoAtInRange(m + 1);
      ChopNumbers(ms[m + 1].data, mss, NoAt(m + 1), ms[m + 1].order);
      NoAtDiffers(m, m + 1);
      NumbersAt(ms, mss, m + 1, e);
    } else {
      assert ms[..m + 1] == ms;
    }
    RunEndIs(LogOf(ms, mss), NoAt(m), i, e);
  }

  lemma {:induction false} RunEndBehind(log: seq<Packet>, no: bv32, acked: nat, i: nat)
    requires acked + i <= |log|
    ensures RunEnd(log[acked..], no, i) == RunEnd(log, no, acked + i) - acked
    decreases |log| - acked - i
  {
    if acked + i < |log| && MsgSeq(log[acked + i]) == no {
      RunEndBehind(log, no, acked, i + 1);
    }
  }

  /** In every reachable state numbered as cut: giving up message m at one of its packets moves the
      sending position to the end of that message, if it is inside, and otherwise not at all; the next
      number is at least two behind that end; and the request names the message, from that packet on,
      and the first packet behind it as well. */
  lemma ExpirySkipsMessage(size: nat, mss: nat, es: seq<Event>, s: System, m: nat, offset: nat)
    requires size > 0 && mss > 0 && Run(Start(false, size, mss), es, s) && s.next == SentEnd(s)
    requires NoneEmpty(s.messages) && m < |s.messages| && offset < s.snd.sent
    requires Sound(s) && IsOf(s.messages, mss, m, s.sndAcked + offset)
    ensures Enabled(s, Expire(offset))
    ensures var s', e := Next(s, Expire(offset)), FirstOf(s.messages, mss, m + 1);
      && SentEnd(s') == Larger(SentEnd(s), e) && s'.next == Larger(s.next, e + 2)
      && s'.drops == s.drops + {DropRequest(NoAt(m), s.sndAcked + offset, e)}
  {
    hide Run, LogOf, RunEnd, FirstOf, SkipMessage, NoAt, MsgSeq, Inv, EndAt;
    SenderHolds(size, mss, es, s);
    NumbersAt(s.messages, mss, m, s.sndAcked + offset);
    EndOfMessage(s.messages, mss, m, s.sndAcked + offset + 1);
    SkipIs(s.snd, s.log, s.sndAcked, NoAt(m), offset, FirstOf(s.messages, mss, m + 1));
  }

  lemma SkipIs(snd: Sender, log: seq<Packet>, acked: nat, no: bv32, offset: nat, e: nat)
    requires acked <= |log| && snd.packets == log[acked..] && acked + offset < e <= |log| && offset < snd.sent
    requires MsgSeq(log[acked + offset]) == no && RunEnd(log, no, acked + offset + 1) == e
    ensures offset < |snd.packets| && MsgSeq(snd.packets[offset]) == no && acked + EndAt(snd, offset) == e
    ensures acked + SkipMessage(snd, offset).sent == Larger(acked + snd.sent, e)
  {
    RunEndBehind(log, no, acked, offset + 1);
  }

  lemma SenderHolds(size: nat, mss: nat, es: seq<Event>, s: System)
    requires size > 0 && mss > 0 && Run(Start(false, size, mss), es, s) && s.next == SentEnd(s)
    ensures !s.stream && s.log == LogOf(s.messages, mss)
    ensures s.sndAcked <= |s.log| && s.snd.packets == s.log[s.sndAcked..]
  {
    hide Run, LogOf;
    RunFromStart(size, mss, es, s);
  }

  // ---- What drop requests touch ----

  /** Packet n lies in the range of a request, or its message number word is the one requested. */
  ghost predicate Named(drops: set<DropRequest>, log: seq<Packet>, n: nat) {
    exists d :: d in drops && (d.first <= n <= d.last || (n < |log| && log[n].msgNo == d.no))
  }

  ghost predicate AllNamed(s: System) {
    forall n :: n in s.gone ==> Named(s.drops, s.log, n)
  }

  lemma NamedMore(drops: set<DropRequest>, drops': set<DropRequest>, log: seq<Packet>, log': seq<Packet>, n: nat)
    requires drops <= drops' && log <= log' && Named(drops, log, n)
    ensures Named(drops', log', n)
  {
    var d :| d in drops && (d.first <= n <= d.last || (n < |log| && log[n].msgNo == d.no));
    assert d in drops';
  }

  lemma StruckNamed(s: System, drop: DropRequest, n: nat)
    requires Inv(s) && drop in s.drops && n in StruckOut(s.rcv, drop.no)
    ensures Named(s.drops, s.log, n)
  {
    hide Sends, Bounded, InNet, Forgets, Excused;
    StruckOutSent(s.rcv, s.log[..SentEnd(s)], drop.no, n);
  }

  lemma StepNamed(s: System, e: Event)
    requires Inv(s) && Enabled(s, e) && AllNamed(s)
    ensures AllNamed(Next(s, e))
  {
    var s' := Next(s, e);
    assert s.drops <= s'.drops && s.log <= s'.log;
    forall n | n in s'.gone
      ensures Named(s'.drops, s'.log, n)
    {
      if n in s.gone {
        NamedMore(s.drops, s'.drops, s.log, s'.log, n);
      } else if n in StruckOut(s.rcv, e.drop.no) {
        StruckNamed(s, e.drop, n);
      } else {
        assert InRange(n, e.drop.first, e.drop.last);
      }
    }
  }

  lemma {:induction false} RunNamed(s: System, es: seq<Event>, s': System)
    requires Run(s, es, s') && ClearRun(s, es, s') && Inv(s) && AllNamed(s)
    ensures AllNamed(s')
    decreases |es|
  {
    if es != [] {
      StepNamed(s, es[0]);
      StepInv(s, es[0]);
      RunNamed(Next(s, es[0]), es[1..], s');
    }
  }

  /** Over every run numbered as cut, what is gone was named in a drop request: no message suffers
      without one. */
  lemma GoneIsNamed(size: nat, mss: nat, es: seq<Event>, s: System, n: nat)
    requires size > 0 && mss > 0 && Run(Start(false, size, mss), es, s) && s.next == SentEnd(s) && n in s.gone
    ensures Named(s.drops, s.log, n)
  {
    StartInv(false, size, mss);
    InStepIff(Start(false, size, mss), es, s);
    RunNamed(Start(false, size, mss), es, s);
  }

  // ---- Runs without expiry ----

  ghost predicate Unexpired(es: seq<Event>) {
    forall k :: 0 <= k < |es| ==> !es[k].Expire?
  }

  /** Without expiry the packets are numbered as they were cut and none is ever gone, so that
      MessageDelivery and OrderedDelivery hold without exception. */
  lemma {:induction false} NothingGone(s: System, es: seq<Event>, s': System)
    requires Run(s, es, s') && Unexpired(es) && s.next == SentEnd(s) && s.drops == {} && s.gone == {}
    ensures s'.next == SentEnd(s') && s'.drops == {} && s'.gone == {}
    decreases |es|
  {
    if es != [] {
      NothingGone(Next(s, es[0]), es[1..], s');
    }
  }

  lemma AllDelivered(size: nat, mss: nat, es: seq<Event>, s: System)
    requires size > 0 && mss > 0 && Run(Start(false, size, mss), es, s) && Unexpired(es)
    ensures s.next == SentEnd(s) && s.gone == {}
    ensures forall k: nat :: k < s.rcv.base ==> Covered(s.deliveries, k)
  {
    NothingGone(Start(false, size, mss), es, s);
    hide Run, Covered, Unexpired;
    MessageDelivery(size, mss, es, s);
    hide Spoiled;
    forall k: nat | k < s.rcv.base
      ensures Covered(s.deliveries, k)
    {
      NotSpoiled(s.log, k);
    }
  }

  lemma NotSpoiled(log: seq<Packet>, k: nat)
    ensures !Spoiled(log, {}, k)
  {
  }
}
