/** How much an account with a custom rate sends (include/pfs/netty/writer_pool.hpp). */
module WriterRates {
  import opened Prelude
  import opened Framing
  import opened WriterQueues
  import opened WriterAccounts

  /** The most one accounting period can send. */
  function Burst(a: Account): nat
    requires a.maxFrameSize > 0
  {
    a.rate + a.maxFrameSize - 1
  }

  ghost predicate Limited(a: Account) {
    && ValidQueue(a.q) && a.mode == Custom
    && HEADER_SIZE < a.maxFrameSize < FRAME_SIZE_LIMIT && |a.q.frame| <= a.maxFrameSize
    && a.sent <= Burst(a)
  }

  /** One event: the period either goes on, or is closed after at least a full second. */
  lemma StepLimited(a: Account, e: Event)
    requires Limited(a) && HonestSend(a, e)
    ensures var (b, out) := After(a, e);
            && Limited(b) && b.rate == a.rate && b.maxFrameSize == a.maxFrameSize
            && (out.fired ==> out.bytes == [])
            && ((b.since == a.since && b.sent == a.sent + |out.bytes|)
                || (e.DoTurn? && e.turn.tuned >= a.since + PERIOD && b.since == e.turn.reset && b.sent == |out.bytes|))
  {
    hide Answered, Acquired;
    if e.DoTurn? {
      var (b, frameSize) := Tune(a, e.turn.tuned, e.turn.reset);
      if frameSize > 0 && CanAcquire(b.q, frameSize) {
        AcquiredFits(b.q, frameSize);
        var c := b.(q := Acquired(b.q, frameSize));
        if c.q.frame != [] {
          AnsweredBounds(c, e.turn.res);
        }
      }
    }
  }

  lemma PeriodsElapse(since: int, reset: int, end: int)
    requires since + PERIOD <= reset <= end
    ensures (end - reset) / PERIOD + 1 <= (end - since) / PERIOD
  {
  }

  /** The allowance from a period's start: what is left of it, and one burst for each full second. */
  function Allowance(burst: nat, sent: nat, since: int, end: int): int {
    burst - sent + burst * ((end - since) / PERIOD)
  }

  lemma AllowanceShrinks(burst: nat, sent: nat, n: nat, since: int, reset: int, end: int)
    requires since + PERIOD <= reset <= end && sent <= burst
    ensures n + Allowance(burst, n, reset, end) <= Allowance(burst, sent, since, end)
  {
    PeriodsElapse(since, reset, end);
    var i, j := (end - reset) / PERIOD, (end - since) / PERIOD;
    MoreBursts(burst, i + 1, j);
    assert burst * (i + 1) == burst * i + burst;
  }

  lemma AllowanceSpent(burst: nat, sent: nat, n: nat, since: int, end: int)
    ensures n + Allowance(burst, sent + n, since, end) == Allowance(burst, sent, since, end)
  {
  }

  lemma AllowanceLess(burst: nat, sent: nat, since: int, end: int)
    ensures Allowance(burst, sent, since, end) == Allowance(burst, 0, since, end) - sent
  {
  }

  lemma AllowancePositive(burst: nat, sent: nat, since: int, end: int)
    requires sent <= burst && since <= end
    ensures Allowance(burst, sent, since, end) >= 0
  {
  }

  lemma MoreBursts(b: nat, i: int, j: int)
    requires i <= j
    ensures b * i <= b * j
  {
  }

  /** A run that begins in a period begun at a.since stays within the allowance of that period. */
  lemma {:induction false} RunRate(a: Account, es: seq<Event>, a': Account, bytes: nat, fired: bool, start: int, end: int)
    requires Limited(a) && Run(a, es, a', bytes, fired) && Timed(es, start, end) && a.since <= start
    ensures a.since <= end && bytes <= Allowance(Burst(a), a.sent, a.since, end)
    decreases |es|
  {
    hide Allowance, After;
    TimedEnds(es, start, end);
    AllowancePositive(Burst(a), a.sent, a.since, end);
    if es != [] {
      var (b, out) := After(a, es[0]);
      StepLimited(a, es[0]);
      if !out.fired {
        var mid, rest := EventEnd(es[0], start), bytes - |out.bytes|;
        TimedEnds(es[1..], mid, end);
        RunRate(b, es[1..], a', rest, fired, mid, end);
        if b.since == a.since && b.sent == a.sent + |out.bytes| {
          AllowanceSpent(Burst(a), a.sent, |out.bytes|, a.since, end);
        } else {
          AllowanceShrinks(Burst(a), a.sent, |out.bytes|, a.since, b.since, end);
        }
      }
    }
  }

  /** From any moment of a run on: two bursts, and one for each full second more. */
  lemma {:induction false} AnyInterval(a: Account, es: seq<Event>, a': Account, bytes: nat, fired: bool, start: int, end: int)
    requires Limited(a) && Run(a, es, a', bytes, fired) && Timed(es, start, end)
    ensures start <= end && bytes <= Burst(a) - a.sent + Allowance(Burst(a), 0, start, end)
    decreases |es|
  {
    hide Allowance, After;
    TimedEnds(es, start, end);
    AllowancePositive(Burst(a), 0, start, end);
    if es != [] {
      var (b, out) := After(a, es[0]);
      StepLimited(a, es[0]);
      if !out.fired {
        var mid, rest := EventEnd(es[0], start), bytes - |out.bytes|;
        TimedEnds(es[1..], mid, end);
        AllowanceLess(Burst(a), b.sent, b.since, end);
        if b.since == a.since && b.sent == a.sent + |out.bytes| {
          AnyInterval(b, es[1..], a', rest, fired, mid, end);
          AllowanceLater(Burst(a), start, mid, end);
        } else {
          RunRate(b, es[1..], a', rest, fired, mid, end);
          AllowanceLater(Burst(a), start, mid, end);
        }
      }
    }
  }

  lemma AllowanceLater(burst: nat, start: int, mid: int, end: int)
    requires start <= mid <= end
    ensures Allowance(burst, 0, mid, end) <= Allowance(burst, 0, start, end)
  {
  }

  /** A limited account sends at most (T / 1000 + 1) bursts of rate + frame size - 1 bytes in its
      first T milliseconds, and no accounting period exceeds one burst. */
  lemma RateBound(rate: nat, frameSize: nat, now: int, es: seq<Event>, a: Account, bytes: nat, fired: bool, end: int)
    requires HEADER_SIZE < frameSize < FRAME_SIZE_LIMIT
    requires Run(Account0(now, rate, Custom, frameSize), es, a, bytes, fired) && Timed(es, now, end)
    ensures now <= end && bytes <= ((end - now) / PERIOD + 1) * (rate + frameSize - 1)
    ensures a.sent <= rate + frameSize - 1
  {
    var a0 := Account0(now, rate, Custom, frameSize);
    RunRate(a0, es, a, bytes, fired, now, end);
    RunLimited(a0, es, a, bytes, fired);
    var k, b := (end - now) / PERIOD, rate + frameSize - 1;
    assert (k + 1) * b == b + b * k;
  }

  lemma {:induction false} RunLimited(a: Account, es: seq<Event>, a': Account, bytes: nat, fired: bool)
    requires Limited(a) && Run(a, es, a', bytes, fired)
    ensures Limited(a') && a'.rate == a.rate && a'.maxFrameSize == a.maxFrameSize
    decreases |es|
  {
    if es != [] {
      StepLimited(a, es[0]);
      var (b, out) := After(a, es[0]);
      if !out.fired {
        RunLimited(b, es[1..], a', bytes - |out.bytes|, fired);
      }
    }
  }

  // ---- One second ----

  /** Without a rate nothing is ever sent. */
  lemma {:induction false} RunSilent(a: Account, es: seq<Event>, a': Account, bytes: nat, fired: bool)
    requires ValidQueue(a.q) && a.mode == Custom && a.rate == 0 && Run(a, es, a', bytes, fired)
    ensures bytes == 0
    decreases |es|
  {
    if es != [] {
      AfterValid(a, es[0]);
      var (b, out) := After(a, es[0]);
      if !out.fired {
        RunSilent(b, es[1..], a', bytes - |out.bytes|, fired);
      }
    }
  }

  /** Nothing queued, writable, and time t lies in the current accounting period. */
  ghost predicate Idle(a: Account, t: int) {
    && a.mode == Custom && HEADER_SIZE < a.maxFrameSize < FRAME_SIZE_LIMIT
    && a.q == Queue([], []) && a.writable && a.writableAt <= t && t - a.since < PERIOD
  }

  function FullFrame(t: int, frameSize: nat): Event {
    DoTurn(Turn(t, t, t, true, Good(frameSize)))
  }

  lemma FillerGoes(a: Account, t: int)
    requires Idle(a, t) && a.sent < a.rate
    ensures var n := a.maxFrameSize;
      var b := a.(q := Queue([Filler(n)], []));
      && ValidQueue(b.q) && HonestSend(b, FullFrame(t, n))
      && After(b, FullFrame(t, n)) == (a.(sent := a.sent + n), NOTHING.(bytes := FrameOf(Filler(n))))
      && |FrameOf(Filler(n))| == n
  {
    var n := a.maxFrameSize;
    FillerFits(n);
    hide Acquired, FrameOf, Filler, After, HonestSend;
    var b := a.(q := Queue([Filler(n)], []));
    FrameGoes(b, FullFrame(t, n).turn, n, b.(q := Queue([], FrameOf(Filler(n)))));
  }

  /** A message that fills a frame is put and goes out at once. */
  lemma OneFrame(a: Account, t: int)
    requires Idle(a, t) && a.sent < a.rate
    ensures var n := a.maxFrameSize;
      Run(a, [Put(Filler(n))] + ([FullFrame(t, n)] + []), a.(sent := a.sent + n), n, false)
  {
    var n := a.maxFrameSize;
    var b, c := a.(q := Queue([Filler(n)], [])), a.(sent := a.sent + n);
    assert Filler(n) != [] && [] + [Filler(n)] == [Filler(n)];
    assert a.(q := Enqueued(a.q, Filler(n))) == b;
    hide After, HonestSend, Filler, FrameOf, FullFrame;
    FillerGoes(a, t);
    RunCons(b, FullFrame(t, n), [], c, 0, false);
    PutCons(a, Filler(n), [FullFrame(t, n)] + [], c, n, false);
  }

  /** At one moment a whole period's allowance can go out, and at least one frame. */
  lemma {:induction false} Spend(a: Account, t: int) returns (es: seq<Event>, bytes: nat)
    requires Idle(a, t)
    ensures Run(a, es, a.(sent := a.sent + bytes), bytes, false) && Timed(es, t, t)
    ensures a.sent + bytes >= a.rate && (a.sent < a.rate ==> bytes >= a.maxFrameSize)
    decreases a.rate - a.sent
  {
    hide After, HonestSend, Filler;
    if a.sent >= a.rate {
      es, bytes := [], 0;
    } else {
      var n := a.maxFrameSize;
      var b, first := a.(sent := a.sent + n), [Put(Filler(n))] + ([FullFrame(t, n)] + []);
      OneFrame(a, t);
      var more, rest := Spend(b, t);
      es, bytes := first + more, n + rest;
      RunConcat(a, first, b, n, more, b.(sent := b.sent + rest), rest, false);
      assert first[1..] == [FullFrame(t, n)] && first[1..][1..] == [];
      assert Timed([], t, t) && Timed(first[1..], t, t) && Timed(first, t, t);
      TimedConcat(first, more, t, t, t);
    }
  }

  /** es leads to a, and late goes on from there, within less than a second. */
  ghost predicate Stretch(a0: Account, es: seq<Event>, before: nat, a: Account,
                          late: seq<Event>, a': Account, bytes: nat, start: int, end: int)
  {
    && ValidQueue(a0.q) && ValidQueue(a.q)
    && Run(a0, es, a, before, false) && Timed(es, a0.since, start)
    && Run(a, late, a', bytes, false) && Timed(late, start, end)
    && end - start < PERIOD
  }

  /** Some run of the account sends more than limit bytes within less than a second. */
  ghost predicate CanExceed(a0: Account, limit: nat) {
    exists es, before, a, late, a', bytes: nat, start, end ::
      Stretch(a0, es, before, a, late, a', bytes, start, end) && bytes > limit
  }

  /** From an idle account late in its first period: what is left of that period, a turn that opens
      the next one, and that one's allowance. */
  lemma TwoBursts(a: Account, t: int) returns (late: seq<Event>, a': Account, bytes: nat)
    requires Idle(a, t) && a.sent == 0 < a.rate && a.since + PERIOD == t + 10
    ensures Run(a, late, a', bytes, false) && Timed(late, t, t + 10)
    ensures bytes > a.rate + a.maxFrameSize - 1
  {
    var u := t + 10;
    var es, n := Spend(a, t);
    var b := a.(sent := n);
    var open := DoTurn(Turn(u, u, u, true, Again));
    var c := b.(sent := 0, since := u);
    assert After(b, open) == (c, NOTHING);
    var es', n' := Spend(c, u);
    a' := c.(sent := n');
    RunCons(b, open, es', a', n', false);
    RunConcat(a, es, b, n, [open] + es', a', n', false);
    assert ([open] + es')[1..] == es';
    TimedConcat(es, [open] + es', t, t, u);
    late, bytes := es + ([open] + es'), n + n';
  }

  /** A burst bounds every second exactly when the rate is zero: with any other rate the end of one
      period and the start of the next together send more. */
  lemma ExceedsIff(now: int, rate: nat, frameSize: nat)
    requires HEADER_SIZE < frameSize < FRAME_SIZE_LIMIT
    ensures CanExceed(Account0(now, rate, Custom, frameSize), rate + frameSize - 1) <==> rate > 0
  {
    var a0 := Account0(now, rate, Custom, frameSize);
    if rate > 0 {
      var a := Writable(a0, now);
      RunCons(a0, CanWrite(now), [], a, 0, false);
      var es, t := [CanWrite(now)] + [], now + 990;
      assert es[1..] == [] && Timed([], now, t) && Timed(es, now, t);
      var late, a', bytes := TwoBursts(a, t);
      assert Stretch(a0, es, 0, a, late, a', bytes, t, t + 10);
    } else if CanExceed(a0, rate + frameSize - 1) {
      var es, before, a, late, a', bytes: nat, start, end :|
        Stretch(a0, es, before, a, late, a', bytes, start, end) && bytes > rate + frameSize - 1;
      RunLimited(a0, es, a, before, false);
      RunSilent(a, late, a', bytes, false);
    }
  }
}
