/** The internal checks that queue and frame make in do_send (include/pfs/netty/writer_pool.hpp),
    over whole runs of one account: exactly which accounts can make one fail. */
module WriterChecks {
  import opened Prelude
  import opened Framing
  import opened WriterQueues
  import opened WriterAccounts

  /** The frame being sent is never larger than the frame size, and the rate allows whole frames. */
  ghost predicate Safe(a: Account) {
    && ValidQueue(a.q)
    && HEADER_SIZE < a.maxFrameSize < FRAME_SIZE_LIMIT && |a.q.frame| <= a.maxFrameSize
    && (a.mode.Custom? ==> a.rate == 0 || a.rate >= a.maxFrameSize)
  }

  lemma StepSafe(a: Account, e: Event)
    requires Safe(a) && HonestSend(a, e)
    ensures Safe(After(a, e).0) && !After(a, e).1.fired
  {
    hide Answered, Acquired;
    if e.DoTurn? {
      var (b, frameSize) := Tune(a, e.turn.tuned, e.turn.reset);
      assert frameSize == 0 || frameSize == a.maxFrameSize;
      if frameSize > 0 {
        AcquiredFits(b.q, frameSize);
        var c := b.(q := Acquired(b.q, frameSize));
        if c.q.frame != [] {
          AnsweredBounds(c, e.turn.res);
        }
      }
    }
  }

  /** No turn is allowed any frame. */
  predicate Mute(a: Account) {
    a.maxFrameSize == 0 || (a.mode.Custom? && a.rate == 0)
  }

  lemma StepMute(a: Account, e: Event)
    requires ValidQueue(a.q) && Mute(a)
    ensures Mute(After(a, e).0) && !After(a, e).1.fired
  {
  }

  /** A frame size without room for payload, a pending frame above it, or a rate below it. */
  predicate Risky(a: Account) {
    && !Mute(a)
    && (a.maxFrameSize <= HEADER_SIZE || |a.q.frame| > a.maxFrameSize || (a.mode.Custom? && a.rate < a.maxFrameSize))
  }

  lemma StepCalm(a: Account, e: Event)
    requires ValidQueue(a.q) && a.maxFrameSize < FRAME_SIZE_LIMIT && !Risky(a) && HonestSend(a, e)
    ensures var (b, out) := After(a, e);
      !out.fired && ValidQueue(b.q) && !Risky(b) && b.maxFrameSize == a.maxFrameSize
  {
    AfterValid(a, e);
    AfterKeeps(a, e);
    hide After, HonestSend;
    if Mute(a) {
      StepMute(a, e);
    } else {
      StepSafe(a, e);
    }
  }

  lemma AfterKeeps(a: Account, e: Event)
    requires ValidQueue(a.q)
    ensures var b := After(a, e).0; b.maxFrameSize == a.maxFrameSize && b.mode == a.mode && b.rate == a.rate
  {
  }

  lemma {:induction false} RunCalm(a: Account, es: seq<Event>, a': Account, bytes: nat, fired: bool)
    requires ValidQueue(a.q) && a.maxFrameSize < FRAME_SIZE_LIMIT && !Risky(a) && Run(a, es, a', bytes, fired)
    ensures !fired
    decreases |es|
  {
    if es != [] {
      StepCalm(a, es[0]);
      var (b, out) := After(a, es[0]);
      RunCalm(b, es[1..], a', bytes - |out.bytes|, fired);
    }
  }

  // ---- A risky account fires ----

  /** Some run of this account, with clocks that never go back, makes an internal check fail. */
  ghost predicate CanFire(a: Account)
    requires ValidQueue(a.q)
  {
    exists es, a', bytes: nat, end :: Run(a, es, a', bytes, true) && Timed(es, a.since, end)
  }

  /** It can from time t on. */
  ghost predicate FiresFrom(a: Account, t: int)
    requires ValidQueue(a.q)
  {
    exists es, a', bytes: nat, end :: Run(a, es, a', bytes, true) && Timed(es, t, end)
  }

  /** One event on the way to a failing check. */
  lemma FiresLater(a: Account, e: Event, t: int)
    requires ValidQueue(a.q) && HonestSend(a, e) && !After(a, e).1.fired
    requires Timed([e], t, EventEnd(e, t))
    requires ValidQueue(After(a, e).0.q) && FiresFrom(After(a, e).0, EventEnd(e, t))
    ensures FiresFrom(a, t)
  {
    var b := After(a, e).0;
    var es, a', bytes: nat, end :| Run(b, es, a', bytes, true) && Timed(es, EventEnd(e, t), end);
    RunCons(a, e, es, a', bytes, true);
    TimedConcat([e], es, t, EventEnd(e, t), end);
  }

  /** What a turn is allowed once the accounting period is over. */
  function LateSize(a: Account): nat {
    if a.mode.Unlimited? then a.maxFrameSize else Min(a.maxFrameSize, a.rate)
  }

  function TurnAt(t: int, res: SendResult): Event {
    DoTurn(Turn(t, t, t, true, res))
  }

  /** Writable, and the accounting period is over. */
  ghost predicate Due(a: Account, t: int) {
    && ValidQueue(a.q) && a.maxFrameSize < FRAME_SIZE_LIMIT && !Mute(a)
    && a.writable && a.writableAt <= t && a.since + PERIOD <= t
  }

  lemma TunedLate(a: Account, t: int)
    requires Due(a, t)
    ensures Tune(a, t, t) == (a.(sent := 0, since := t), LateSize(a)) && LateSize(a) > 0
  {
  }

  /** A check fails as soon as a due account may not acquire. */
  lemma FiresNow(a: Account, t: int)
    requires Due(a, t) && !CanAcquire(a.q, LateSize(a))
    ensures FiresFrom(a, t)
  {
    TunedLate(a, t);
    var b, e := a.(sent := 0, since := t), TurnAt(t, Again);
    assert After(a, e) == (b, NOTHING.(fired := true));
    assert Run(a, [e], b, 0, true);
    assert [e][1..] == [] && Timed([], t, t) && Timed([e], t, t);
  }

  /** A message put behind an empty queue meets a size without room for payload. */
  lemma FiresTiny(a: Account, t: int)
    requires Due(a, t) && LateSize(a) <= HEADER_SIZE && a.q.frame == []
    ensures FiresFrom(a, t)
  {
    var e := Put([0]);
    var b := After(a, e).0;
    assert Due(b, t) && b.q.messages != [] && LateSize(b) == LateSize(a);
    FiresNow(b, t);
    assert [e][1..] == [] && Timed([], t, t) && Timed([e], t, t);
    FiresLater(a, e, t);
  }

  /** The pending or next frame goes out whole in one turn after the period. */
  lemma FrameOut(a: Account, t: int) returns (b: Account)
    requires Due(a, t) && CanAcquire(a.q, LateSize(a)) && Acquired(a.q, LateSize(a)).frame != []
    ensures b.q == Queue(Acquired(a.q, LateSize(a)).messages, []) && b == a.(q := b.q, sent := b.sent, since := t)
    ensures Due(b, t + PERIOD) && (FiresFrom(b, t + PERIOD) ==> FiresFrom(a, t))
  {
    TunedLate(a, t);
    AcquiredFits(a.q, LateSize(a));
    hide Acquired, Tune, After, HonestSend;
    var q := Acquired(a.q, LateSize(a));
    var c := a.(sent := 0, since := t, q := q);
    var e := TurnAt(t, Good(|q.frame|));
    FrameGoes(a, e.turn, LateSize(a), c);
    b := c.(q := Queue(q.messages, []), sent := |q.frame|);
    assert [e][1..] == [] && Timed([], t, t) && Timed([e], t, t);
    if FiresFrom(b, t + PERIOD) {
      FiresEarlier(b, t, t + PERIOD);
      FiresLater(a, e, t);
    }
  }

  lemma FiresEarlier(a: Account, t: int, u: int)
    requires ValidQueue(a.q) && t <= u && FiresFrom(a, u)
    ensures FiresFrom(a, t)
  {
    var es, a', bytes: nat, end :| Run(a, es, a', bytes, true) && Timed(es, u, end);
    TimedEarlier(es, t, u, end);
  }

  /** A full frame, acquired while the period lasts, is too large for the rate once it is over. */
  lemma FiresDrained(a: Account, t: int)
    requires Due(a, t) && a.mode.Custom? && a.rate < a.maxFrameSize && HEADER_SIZE < a.maxFrameSize
    requires a.q == Queue([], [])
    ensures FiresFrom(a, t)
  {
    var open, put, again, ready := TurnAt(t, Again), Put(Filler(a.maxFrameSize)), TurnAt(t, Again), CanWrite(t);
    var b := a.(sent := 0, since := t);
    TunedLate(a, t);
    assert After(a, open) == (b, NOTHING);
    FillerFits(a.maxFrameSize);
    var f := FrameOf(Filler(a.maxFrameSize));
    var c := b.(q := Queue([Filler(a.maxFrameSize)], []));
    assert [] + [Filler(a.maxFrameSize)] == [Filler(a.maxFrameSize)];
    assert After(b, put) == (c, NOTHING);
    var d := c.(q := Queue([], f), writable := false);
    hide Filler, FrameOf, Acquired;
    assert Tune(c, t, t) == (c, a.maxFrameSize);
    assert After(c, again) == (d, NOTHING.(waits := true));
    FiresWhenReady(d, t);
    AllAt(t, again);
    FiresLater(c, again, t);
    AllAt(t, put);
    FiresLater(b, put, t);
    AllAt(t, open);
    FiresLater(a, open, t);
  }

  lemma AllAt(t: int, e: Event)
    requires e == TurnAt(t, Again) || e.Put? || e == CanWrite(t)
    ensures Timed([e], t, EventEnd(e, t))
  {
    assert [e][1..] == [] && Timed([], t, t);
  }

  lemma FiresWhenReady(a: Account, t: int)
    requires ValidQueue(a.q) && a.maxFrameSize < FRAME_SIZE_LIMIT && !Mute(a) && a.since <= t
    requires !CanAcquire(a.q, LateSize(a))
    ensures FiresFrom(a, t)
  {
    var b := Writable(a, t);
    FiresNow(b, t + PERIOD);
    FiresEarlier(b, t, t + PERIOD);
    AllAt(t, CanWrite(t));
    FiresLater(a, CanWrite(t), t);
  }

  /** Sending a frame leaves less to send. */
  lemma AcquiredShrinks(q: Queue, size: nat)
    requires ValidQueue(q) && CanAcquire(q, size) && Acquired(q, size).frame != []
    requires size < FRAME_SIZE_LIMIT
    ensures var ms := Acquired(q, size).messages;
      |Flatten(ms)| < |Flatten(q.messages)| || (ms == q.messages && q.frame != [])
  {
    if q.frame == [] {
      var m := q.messages[0];
      var k := PayloadSize(|m|, size);
      assert k > 0;
      if k < |m| {
        assert q.messages[0 := m[k..]][1..] == q.messages[1..];
      }
    }
  }

  /** With a rate below the frame size: what is queued goes out, period by period, until a full
      frame can be put in its place; unless a check fails before that. */
  lemma {:induction false} FiresSmallRate(a: Account, t: int)
    requires Due(a, t) && a.mode.Custom? && HEADER_SIZE < a.rate < a.maxFrameSize
    ensures FiresFrom(a, t)
    decreases |Flatten(a.q.messages)|, |a.q.frame|
  {
    if !CanAcquire(a.q, LateSize(a)) {
      FiresNow(a, t);
    } else if a.q == Queue([], []) {
      FiresDrained(a, t);
    } else {
      AcquiredSome(a.q, LateSize(a));
      var b := FrameOut(a, t);
      AcquiredShrinks(a.q, LateSize(a));
      FiresSmallRate(b, t + PERIOD);
    }
  }

  lemma AcquiredSome(q: Queue, size: nat)
    requires ValidQueue(q) && CanAcquire(q, size) && q != Queue([], [])
    ensures Acquired(q, size).frame != []
  {
  }

  lemma FiresRisky(a: Account, t: int)
    requires Due(a, t) && Risky(a)
    ensures FiresFrom(a, t)
  {
    if !CanAcquire(a.q, LateSize(a)) {
      FiresNow(a, t);
    } else if LateSize(a) > HEADER_SIZE {
      FiresSmallRate(a, t);
    } else if a.q.frame == [] {
      FiresTiny(a, t);
    } else {
      var b := FrameOut(a, t);
      FiresTiny(b, t + PERIOD);
    }
  }

  /** Some run makes a check fail exactly when the account is risky. */
  lemma FiresIff(a: Account)
    requires ValidQueue(a.q) && a.maxFrameSize < FRAME_SIZE_LIMIT
    ensures CanFire(a) <==> Risky(a)
  {
    if Risky(a) {
      var b, t := Writable(a, a.since), a.since;
      FiresRisky(b, t + PERIOD);
      FiresEarlier(b, t, t + PERIOD);
      AllAt(t, CanWrite(t));
      FiresLater(a, CanWrite(t), t);
    } else if CanFire(a) {
      var es, a', bytes: nat, end :| Run(a, es, a', bytes, true) && Timed(es, a.since, end);
      RunCalm(a, es, a', bytes, true);
    }
  }

  /** A new account with a proper frame size never fires without a rate limit; with one it can
      exactly when the rate is positive and below the frame size. */
  lemma ChecksFailIff(now: int, rate: nat, mode: Throttling, frameSize: nat)
    requires HEADER_SIZE < frameSize < FRAME_SIZE_LIMIT
    ensures CanFire(Account0(now, rate, mode, frameSize)) <==> mode.Custom? && 0 < rate < frameSize
  {
    FiresIff(Account0(now, rate, mode, frameSize));
  }

  /** What set_frame_size may be given in mid-run: afterwards some run fires exactly when the size is
      not zero, nor the rate, and leaves no room for payload, or does not hold the pending frame, or
      exceeds the rate. */
  lemma ResizeFiresIff(a: Account, frameSize: nat)
    requires ValidQueue(a.q) && frameSize < FRAME_SIZE_LIMIT
    ensures CanFire(a.(maxFrameSize := frameSize)) <==>
      && frameSize > 0 && (a.mode.Custom? ==> a.rate > 0)
      && (frameSize <= HEADER_SIZE || frameSize < |a.q.frame| || (a.mode.Custom? && a.rate < frameSize))
  {
    FiresIff(a.(maxFrameSize := frameSize));
  }
}
