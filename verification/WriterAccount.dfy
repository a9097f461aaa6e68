/** One account of the writer pool (include/pfs/netty/writer_pool.hpp): its queue, whether its
    socket takes data, and its bandwidth accounting. Times are milliseconds. */
module WriterAccounts {
  import opened Prelude
  import opened Framing
  import opened WriterQueues

  datatype Throttling = Unlimited | Custom

  const DEFAULT_FRAME_SIZE: nat := 1500
  const FRAME_SIZE_LIMIT: nat := 0x1_0000   // frame sizes are std::uint16_t
  const WRITE_DELAY: nat := 500
  const PERIOD: nat := 1000

  datatype Account = Account(
    maxFrameSize: nat,
    q: Queue,
    writable: bool,
    writableAt: int,       // writable_time_point
    sent: nat,             // recent_bytes_sent
    since: int,            // recent_time_point
    rate: nat,             // data_rate
    mode: Throttling)      // which tune_frame_size is installed

  datatype SendResult = Failure | Network | Again | Overflow | Good(n: nat)

  /** What one turn of do_send meets: three readings of the clock, whether the socket is known,
      and what send returns. */
  datatype Turn = Turn(now: int, tuned: int, reset: int, found: bool, res: SendResult)

  /** What one turn does besides changing the account. */
  datatype Outcome = Outcome(bytes: seq<byte>, waits: bool, removes: bool, fired: bool)

  const NOTHING := Outcome([], false, false, false)

  function NewAccount(now: int, rate: nat, mode: Throttling): Account {
    Account(DEFAULT_FRAME_SIZE, Queue([], []), false, now, 0, now, rate, mode)
  }

  /** The frame size allowed now, 0 for none, and the account after the accounting it does. */
  function Tune(a: Account, now: int, reset: int): (Account, nat) {
    var anew := a.(sent := 0, since := reset);
    match a.mode
    case Unlimited => (if now - a.since > PERIOD - 1 then anew else a, a.maxFrameSize)
    case Custom =>
      if now - a.since <= PERIOD - 1 then
        if a.sent < a.rate then
          var frameSize := Min(a.maxFrameSize, a.rate - a.sent);
          (a, if frameSize < a.maxFrameSize then a.maxFrameSize else frameSize)
        else (a, 0)
      else (anew, Min(a.maxFrameSize, a.rate))
  }

  /** What the answer of send does to an account that holds a frame. */
  function Answered(a: Account, res: SendResult): (Account, Outcome)
    requires ValidQueue(a.q) && a.q.frame != []
  {
    match res
    case Failure => (a, NOTHING.(removes := true))
    case Network => (a, NOTHING.(removes := true))
    case Again => (a.(writable := false), NOTHING.(waits := true))
    case Overflow => (a.(writable := false), NOTHING.(waits := true))
    case Good(n) =>
      if n == 0 then (a, NOTHING)
      else if n > |a.q.frame| then (a, NOTHING.(fired := true))
      else (a.(q := Shifted(a.q, n), sent := a.sent + n), NOTHING.(bytes := a.q.frame[..n]))
  }

  /** One turn of the loop of do_send. `fired` tells that an internal check of the queue failed. */
  function SendTurn(a: Account, t: Turn): (Account, Outcome)
    requires ValidQueue(a.q)
  {
    if !a.writable || t.now < a.writableAt then (a, NOTHING)
    else
      var (b, frameSize) := Tune(a, t.tuned, t.reset);
      if frameSize == 0 then (b, NOTHING)
      else if !CanAcquire(b.q, frameSize) then (b, NOTHING.(fired := true))
      else
        var c := b.(q := Acquired(b.q, frameSize));
        if c.q.frame == [] then (c, NOTHING)
        else if !t.found then (c, NOTHING.(removes := true))
        else Answered(c, t.res)
  }

  function Writable(a: Account, now: int): Account {
    a.(writable := true, writableAt := now + WRITE_DELAY)
  }

  // ---- Runs of one account ----

  datatype Event = Put(data: seq<byte>) | CanWrite(now: int) | DoTurn(turn: Turn)

  function After(a: Account, e: Event): (Account, Outcome)
    requires ValidQueue(a.q)
  {
    match e
    case Put(data) => (a.(q := Enqueued(a.q, data)), NOTHING)
    case CanWrite(now) => (Writable(a, now), NOTHING)
    case DoTurn(turn) => SendTurn(a, turn)
  }

  lemma AcquiredFits(q: Queue, frameSize: nat)
    requires ValidQueue(q) && CanAcquire(q, frameSize)
    ensures ValidQueue(Acquired(q, frameSize))
    ensures |Acquired(q, frameSize).frame| <= if |q.frame| > frameSize then |q.frame| else frameSize
  {
  }

  lemma AfterValid(a: Account, e: Event)
    requires ValidQueue(a.q)
    ensures ValidQueue(After(a, e).0.q)
  {
    hide Acquired, Tune;
    if e.DoTurn? {
      TuneKeepsQueue(a, e.turn);
      var size := Tune(a, e.turn.tuned, e.turn.reset).1;
      if CanAcquire(a.q, size) {
        AcquiredFits(a.q, size);
      }
    }
  }

  /** send never takes more than it is offered. */
  predicate HonestSend(a: Account, e: Event)
    requires ValidQueue(a.q)
  {
    e.DoTurn? && e.turn.res.Good? ==> e.turn.res.n <= |Offered(a, e.turn)|
  }

  /** The frame a turn would hand to send. */
  function Offered(a: Account, t: Turn): seq<byte>
    requires ValidQueue(a.q)
  {
    var (b, frameSize) := Tune(a, t.tuned, t.reset);
    if CanAcquire(b.q, frameSize) then Acquired(b.q, frameSize).frame else []
  }

  /** es leads from a to a'; bytes counts what was sent, fired tells whether a check failed. */
  ghost predicate Run(a: Account, es: seq<Event>, a': Account, bytes: nat, fired: bool)
    requires ValidQueue(a.q)
    decreases |es|
  {
    if es == [] then a' == a && bytes == 0 && !fired
    else
      var (b, out) := After(a, es[0]);
      AfterValid(a, es[0]);
      && HonestSend(a, es[0])
      && if out.fired then a' == b && bytes == |out.bytes| && fired
         else |out.bytes| <= bytes && Run(b, es[1..], a', bytes - |out.bytes|, fired)
  }

  /** A new account with the frame size set. */
  function Account0(now: int, rate: nat, mode: Throttling, frameSize: nat): Account {
    NewAccount(now, rate, mode).(maxFrameSize := frameSize)
  }

  /** The answer of an honest send changes nothing but the bytes sent and the rest of the frame. */
  lemma AnsweredBounds(a: Account, res: SendResult)
    requires ValidQueue(a.q) && a.q.frame != [] && (res.Good? ==> res.n <= |a.q.frame|)
    ensures var (b, out) := Answered(a, res);
            && b == a.(q := b.q, sent := a.sent + |out.bytes|, writable := b.writable)
            && ValidQueue(b.q) && |b.q.frame| <= |a.q.frame| && |out.bytes| <= |a.q.frame| && !out.fired
  {
  }

  lemma PutCons(a: Account, data: seq<byte>, es: seq<Event>, a': Account, bytes: nat, fired: bool)
    requires ValidQueue(a.q) && Run(a.(q := Enqueued(a.q, data)), es, a', bytes, fired)
    ensures Run(a, [Put(data)] + es, a', bytes, fired)
  {
    RunCons(a, Put(data), es, a', bytes, fired);
  }

  /** The size a turn allows, and the account with the frame acquired at that size. */
  ghost predicate Acquires(a: Account, t: Turn, size: nat, c: Account) {
    && ValidQueue(a.q) && a.writable && t.now >= a.writableAt
    && Tune(a, t.tuned, t.reset).1 == size > 0 && CanAcquire(a.q, size)
    && c == Tune(a, t.tuned, t.reset).0.(q := Acquired(a.q, size))
  }

  /** A frame that is sent whole leaves the queue without one. */
  lemma FrameGoes(a: Account, t: Turn, size: nat, c: Account)
    requires Acquires(a, t, size, c) && c.q.frame != [] && t.found && t.res == Good(|c.q.frame|)
    ensures HonestSend(a, DoTurn(t))
    ensures After(a, DoTurn(t)) ==
      (c.(q := Queue(c.q.messages, []), sent := c.sent + |c.q.frame|), NOTHING.(bytes := c.q.frame))
  {
    hide Acquired, Tune;
    var f := c.q.frame;
    TuneKeepsQueue(a, t);
    AcquiredFits(a.q, size);
    assert f[..|f|] == f && f[|f|..] == [];
  }

  /** A message that fills a frame. */
  function Filler(frameSize: nat): seq<byte>
    requires frameSize > HEADER_SIZE
  {
    seq(frameSize - HEADER_SIZE, _ => 0)
  }

  lemma FillerFits(n: nat)
    requires HEADER_SIZE < n < FRAME_SIZE_LIMIT
    ensures var m := Filler(n);
      && ValidQueue(Queue([m], [])) && CanAcquire(Queue([m], []), n) && m != []
      && Acquired(Queue([m], []), n) == Queue([], FrameOf(m)) && |FrameOf(m)| == n
  {
    var m := Filler(n);
    assert m[..|m|] == m && PayloadSize(|m|, n) == |m|;
  }

  lemma TuneKeepsQueue(a: Account, t: Turn)
    ensures var b := Tune(a, t.tuned, t.reset).0;
      b == a.(sent := b.sent, since := b.since) && b.q == a.q
  {
  }

  lemma RunCons(a: Account, e: Event, es: seq<Event>, a': Account, bytes: nat, fired: bool)
    requires ValidQueue(a.q) && HonestSend(a, e) && !After(a, e).1.fired
    requires ValidQueue(After(a, e).0.q) && Run(After(a, e).0, es, a', bytes, fired)
    ensures Run(a, [e] + es, a', bytes + |After(a, e).1.bytes|, fired)
  {
  }

  /** The clock readings of a run lie between start and end, and never go back. */
  ghost predicate Timed(es: seq<Event>, start: int, end: int)
    decreases |es|
  {
    if es == [] then start <= end
    else if es[0].DoTurn? then
      start <= es[0].turn.now <= es[0].turn.tuned <= es[0].turn.reset && Timed(es[1..], es[0].turn.reset, end)
    else if es[0].CanWrite? then start <= es[0].now && Timed(es[1..], es[0].now, end)
    else Timed(es[1..], start, end)
  }

  function EventEnd(e: Event, start: int): int {
    match e
    case Put(_) => start
    case CanWrite(now) => now
    case DoTurn(t) => t.reset
  }

  lemma {:induction false} TimedEnds(es: seq<Event>, start: int, end: int)
    requires Timed(es, start, end)
    ensures start <= end
    decreases |es|
  {
    if es != [] {
      TimedEnds(es[1..], EventEnd(es[0], start), end);
    }
  }

  lemma {:induction false} RunConcat(a: Account, es: seq<Event>, b: Account, n: nat, es': seq<Event>, c: Account, n': nat, fired: bool)
    requires ValidQueue(a.q) && ValidQueue(b.q) && Run(a, es, b, n, false) && Run(b, es', c, n', fired)
    ensures Run(a, es + es', c, n + n', fired)
    decreases |es|
  {
    hide After, HonestSend;
    if es == [] {
      assert es + es' == es';
    } else {
      AfterValid(a, es[0]);
      var (d, out) := After(a, es[0]);
      RunConcat(d, es[1..], b, n - |out.bytes|, es', c, n', fired);
      assert (es + es')[1..] == es[1..] + es';
    }
  }

  lemma {:induction false} TimedConcat(es: seq<Event>, es': seq<Event>, start: int, mid: int, end: int)
    requires Timed(es, start, mid) && Timed(es', mid, end)
    ensures Timed(es + es', start, end)
    decreases |es|
  {
    if es == [] {
      assert es + es' == es';
      TimedEarlier(es', start, mid, end);
    } else {
      assert (es + es')[1..] == es[1..] + es';
      TimedConcat(es[1..], es', EventEnd(es[0], start), mid, end);
    }
  }

  /** What may start at some time may start earlier. */
  lemma {:induction false} TimedEarlier(es: seq<Event>, start: int, mid: int, end: int)
    requires start <= mid && Timed(es, mid, end)
    ensures Timed(es, start, end)
    decreases |es|
  {
    if es != [] && es[0].Put? {
      TimedEarlier(es[1..], start, mid, end);
    }
  }
}
