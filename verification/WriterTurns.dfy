/** One turn of do_send (include/pfs/netty/writer_pool.hpp): when it calls send, and what each answer
    does; and runs of turns that send everything queued. */
module WriterTurns {
  import opened Prelude
  import opened Framing
  import opened WriterQueues
  import opened WriterAccounts
  import opened WriterChecks
  import opened WriterBytes
  import Pipelines

  /** The turn gets as far as send: were that to answer again, the account would have to wait. */
  ghost predicate Asks(a: Account, t: Turn)
    requires ValidQueue(a.q)
  {
    SendTurn(a, t.(found := true, res := Again)).1.waits
  }

  /** Past the moments at which the account may write and is due. */
  predicate Due(a: Account, t: Turn) {
    a.writable && t.now >= a.writableAt
  }

  predicate PeriodOver(a: Account, t: Turn) {
    t.tuned - a.since >= PERIOD
  }

  /** An account whose frame size is proper calls send exactly when it is due, has something to send,
      and its rate, if it has one, allows it: any positive rate in a new period, and within a period as
      long as less than the rate has been sent. */
  lemma AsksIff(a: Account, t: Turn)
    requires Safe(a)
    ensures Asks(a, t) <==>
      && Due(a, t) && a.q != Queue([], [])
      && (a.mode.Custom? ==> if PeriodOver(a, t) then a.rate > 0 else a.sent < a.rate)
  {
  }

  /** What each answer does. Failure, network and a socket that is not known schedule the account for
      removal, and nothing else does; again and overflow make it wait; good puts as many bytes on the
      wire as were taken, or makes a check fail if that is more than there were. */
  lemma TurnAnswers(a: Account, t: Turn)
    requires ValidQueue(a.q)
    ensures var (b, out) := SendTurn(a, t);
      && (out.removes <==> Asks(a, t) && (!t.found || t.res.Failure? || t.res.Network?))
      && (out.waits <==> Asks(a, t) && t.found && (t.res.Again? || t.res.Overflow?))
      && b.writable == (a.writable && !out.waits)
      && (Asks(a, t) ==> (out.fired <==> t.found && t.res.Good? && t.res.n > |Offered(a, t)|))
      && (HonestSend(a, DoTurn(t)) ==> |out.bytes| == if Asks(a, t) && t.found && t.res.Good? then t.res.n else 0)
  {
    hide Acquired, Tune;
    TuneKeepsQueue(a, t);
  }

  /** The accounting: a due turn opens a new period exactly when the old one is a second old, and what
      is sent counts in the period it is sent in. */
  lemma TurnCounts(a: Account, t: Turn)
    requires ValidQueue(a.q) && HonestSend(a, DoTurn(t))
    ensures var (b, out) := SendTurn(a, t);
      var opens := Due(a, t) && PeriodOver(a, t);
      && b.since == (if opens then t.reset else a.since)
      && b.sent == (if opens then 0 else a.sent) + |out.bytes|
      && (b.maxFrameSize, b.rate, b.mode, b.writableAt) == (a.maxFrameSize, a.rate, a.mode, a.writableAt)
  {
    hide Acquired;
    TuneKeepsQueue(a, t);
  }

  // ---- Sending everything ----

  lemma {:induction false} PiecesFramable(m: seq<byte>, k: nat)
    requires 0 < k < LENGTH_LIMIT
    ensures Framable(Pipelines.Pieces(m, k))
    decreases |m|
  {
    if |m| > k {
      PiecesFramable(m[k..], k);
    }
  }

  lemma {:induction false} AllFramable(ms: seq<seq<byte>>, k: nat)
    requires 0 < k < LENGTH_LIMIT
    ensures Framable(Pipelines.PiecesAll(ms, k))
  {
    if ms != [] {
      PiecesFramable(ms[0], k);
      AllFramable(ms[1..], k);
    }
  }

  /** The messages, each cut into pieces that fill a frame of this size, as they go over the wire. */
  function WireOf(ms: seq<seq<byte>>, frameSize: nat): seq<byte>
    requires HEADER_SIZE < frameSize < FRAME_SIZE_LIMIT
  {
    AllFramable(ms, frameSize - HEADER_SIZE);
    FrameAll(Pipelines.PiecesAll(ms, frameSize - HEADER_SIZE))
  }

  /** Framing the front of the queue takes the first frame off what is to go over the wire. */
  lemma WireStep(q: Queue, frameSize: nat)
    requires ValidQueue(q) && HEADER_SIZE < frameSize < FRAME_SIZE_LIMIT && q.frame == [] && q.messages != []
    ensures var q' := Acquired(q, frameSize);
      q'.frame != [] && WireOf(q.messages, frameSize) == q'.frame + WireOf(q'.messages, frameSize)
      && |Flatten(q'.messages)| < |Flatten(q.messages)|
  {
    var k, m := frameSize - HEADER_SIZE, q.messages[0];
    var f := m[..Min(|m|, k)];
    Pipelines.PiecesTake(q.messages, k);
    AllFramable(q.messages, k);
    AllFramable(Pipelines.Rest(f, q.messages), k);
    assert PayloadSize(|m|, frameSize) == |f|;
    assert Acquired(q, frameSize) == Queue(Pipelines.Rest(f, q.messages), FrameOf(f));
    Pipelines.RestConserves(f, q.messages);
    var ps := Pipelines.PiecesAll(Pipelines.Rest(f, q.messages), k);
    assert ([f] + ps)[0] == f && ([f] + ps)[1..] == ps;
  }

  /** No rate limit, a proper frame size, and nothing pending that exceeds it. */
  ghost predicate Free(a: Account) {
    Safe(a) && a.mode.Unlimited?
  }

  /** A turn at a moment at which the socket takes all it is offered. */
  function TakeAll(a: Account, now: int): Step
    requires ValidQueue(a.q) && CanAcquire(a.q, a.maxFrameSize)
  {
    Does(DoTurn(Turn(now, now, now, true, Good(|Acquired(a.q, a.maxFrameSize).frame|))))
  }

  lemma OneGoes(a: Account, now: int)
    requires Free(a) && a.writable && a.writableAt <= now && a.q != Queue([], [])
    ensures var (b, out) := Stepped(a, TakeAll(a, now));
      && HonestSend(a, TakeAll(a, now).e) && Free(b) && b == a.(q := b.q, sent := b.sent, since := b.since)
      && var q := Acquired(a.q, a.maxFrameSize);
      out.bytes == q.frame != [] && b.q == Queue(q.messages, [])
  {
    var t, q := TakeAll(a, now).e.turn, Acquired(a.q, a.maxFrameSize);
    var c := Tune(a, now, now).0.(q := q);
    AcquiredSome(a.q, a.maxFrameSize);
    TuneKeepsQueue(a, t);
    assert Acquires(a, t, a.maxFrameSize, c);
    FrameGoes(a, t, a.maxFrameSize, c);
    AcquiredFits(a.q, a.maxFrameSize);
  }

  /** Without a rate limit all that is queued can go out at one moment: the pending frame, and then the
      messages, each cut into as few frames of the frame size as hold it. */
  lemma {:induction false} AllGoes(a: Account, now: int) returns (ss: seq<Step>)
    requires Free(a) && a.writable && a.writableAt <= now
    ensures forall i :: 0 <= i < |ss| ==> ss[i].Does? && ss[i].e.DoTurn? && ss[i].e.turn.now == now == ss[i].e.turn.tuned
    ensures Honest(a, ss)
    ensures var (b, wire) := Through(a, ss);
      b.q == Queue([], []) && wire == a.q.frame + WireOf(a.q.messages, a.maxFrameSize)
    decreases |Flatten(a.q.messages)|, |a.q.frame|
  {
    if a.q == Queue([], []) {
      ss := [];
    } else {
      OneGoes(a, now);
      var s, q := TakeAll(a, now), Acquired(a.q, a.maxFrameSize);
      var (b, out) := Stepped(a, s);
      if a.q.frame == [] {
        WireStep(a.q, a.maxFrameSize);
      }
      hide Stepped, Acquired, WireOf, Free, Safe;
      var more := AllGoes(b, now);
      ss := [s] + more;
      assert ss[1..] == more;
      assert [] + WireOf(b.q.messages, a.maxFrameSize) == WireOf(b.q.messages, a.maxFrameSize);
    }
  }

  /** A frame size set while nothing is pending holds for every frame from then on. */
  lemma ResizedGoes(a: Account, frameSize: nat, now: int) returns (ss: seq<Step>)
    requires ValidQueue(a.q) && a.mode.Unlimited? && HEADER_SIZE < frameSize < FRAME_SIZE_LIMIT && a.q.frame == []
    requires a.writable && a.writableAt <= now
    ensures Honest(a, [Resize(frameSize)] + ss)
    ensures var (b, wire) := Through(a, [Resize(frameSize)] + ss);
      b.q == Queue([], []) && wire == WireOf(a.q.messages, frameSize)
  {
    ss := AllGoes(a.(maxFrameSize := frameSize), now);
    assert ([Resize(frameSize)] + ss)[1..] == ss;
  }
}
