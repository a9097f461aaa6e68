/** Writer queue, wire and input controller joined: framing end to end over a reliable byte
    stream, with partial sends and arbitrary chunks. */
module Pipelines {
  import opened Prelude
  import opened Framing
  import opened WriterQueues
  import opened InputControllers

  datatype Pipe = Pipe(
    queue: Queue,                    // sending side
    wire: seq<byte>,                 // accepted by send, not yet received
    raw: map<int, seq<byte>>,        // the receiver's input controller
    // history
    enqueued: seq<seq<byte>>,        // the non-empty messages enqueued
    delivered: seq<seq<byte>>)       // the payloads handed to on_data_ready

  datatype Step =
    | Put(data: seq<byte>)
    | Take(frameSize: nat)
    | Sent(n: nat)
    | Arrived(n: nat)

  const SID := 0

  function Start(): Pipe {
    Pipe(Queue([], []), [], map[], [], [])
  }

  predicate Enabled(p: Pipe, e: Step) {
    match e
    case Put(_) => true
    case Take(frameSize) => CanAcquire(p.queue, frameSize)
    case Sent(n) => 0 < n <= |p.queue.frame|
    case Arrived(n) => n <= |p.wire|
  }

  function Next(p: Pipe, e: Step): Pipe
    requires ValidQueue(p.queue) && Enabled(p, e)
  {
    match e
    case Put(data) =>
      p.(queue := Enqueued(p.queue, data), enqueued := if data == [] then p.enqueued else p.enqueued + [data])
    case Take(frameSize) => p.(queue := Acquired(p.queue, frameSize))
    case Sent(n) => p.(queue := Shifted(p.queue, n), wire := p.wire + p.queue.frame[..n])
    case Arrived(n) =>
      var (raw, ready) := Feed(p.raw, SID, p.wire[..n]);
      p.(raw := raw, wire := p.wire[n..], delivered := p.delivered + ready)
  }

  /** The framed bytes between the two sides: kept by the receiver, on the wire, still to send. */
  function InFlight(p: Pipe): seq<byte> {
    RawOf(p.raw, SID) + (p.wire + p.queue.frame)
  }

  /** All payloads framed so far: delivered, or complete in what is in flight. */
  function Framed(p: Pipe): seq<seq<byte>> {
    p.delivered + ParseAll(InFlight(p)).0
  }

  /** Each frame holds the next bytes of the message at the front, never of two messages;
      `rest` is what the frames leave of the messages. */
  ghost predicate Segments(frames: seq<seq<byte>>, rest: seq<seq<byte>>, messages: seq<seq<byte>>)
    decreases |frames|
  {
    if frames == [] then rest == messages
    else
      && messages != [] && frames[0] <= messages[0]
      && Segments(frames[1..], rest, Rest(frames[0], messages))
  }

  function Rest(frame: seq<byte>, messages: seq<seq<byte>>): seq<seq<byte>>
    requires messages != [] && |frame| <= |messages[0]|
  {
    if |frame| == |messages[0]| then messages[1..] else messages[0 := messages[0][|frame|..]]
  }

  ghost predicate Inv(p: Pipe) {
    && ValidQueue(p.queue)
    && ParseAll(InFlight(p)).1 == []
    && Segments(Framed(p), p.queue.messages, p.enqueued)
  }

  lemma {:induction false} SegmentsTake(frames: seq<seq<byte>>, rest: seq<seq<byte>>, messages: seq<seq<byte>>, f: seq<byte>)
    requires Segments(frames, rest, messages) && rest != [] && f <= rest[0]
    ensures Segments(frames + [f], Rest(f, rest), messages)
    decreases |frames|
  {
    if frames == [] {
      assert (frames + [f])[1..] == [];
    } else {
      assert (frames + [f])[1..] == frames[1..] + [f];
      SegmentsTake(frames[1..], rest, Rest(frames[0], messages), f);
    }
  }

  lemma {:induction false} SegmentsPut(frames: seq<seq<byte>>, rest: seq<seq<byte>>, messages: seq<seq<byte>>, m: seq<byte>)
    requires Segments(frames, rest, messages)
    ensures Segments(frames, rest + [m], messages + [m])
    decreases |frames|
  {
    if frames != [] {
      SegmentsPut(frames[1..], rest, Rest(frames[0], messages), m);
      assert Rest(frames[0], messages + [m]) == Rest(frames[0], messages) + [m];
    }
  }

  /** A frame and the rest it leaves hold the bytes of the messages. */
  lemma RestConserves(f: seq<byte>, messages: seq<seq<byte>>)
    requires messages != [] && f <= messages[0]
    ensures f + Flatten(Rest(f, messages)) == Flatten(messages)
  {
    var m, tail := messages[0], Flatten(messages[1..]);
    assert m == f + m[|f|..];
    if |f| < |m| {
      assert Rest(f, messages)[1..] == messages[1..];
      assert f + (m[|f|..] + tail) == m + tail;
    }
  }

  lemma {:induction false} SegmentsConserve(frames: seq<seq<byte>>, rest: seq<seq<byte>>, messages: seq<seq<byte>>)
    requires Segments(frames, rest, messages)
    ensures Flatten(frames) + Flatten(rest) == Flatten(messages)
    decreases |frames|
  {
    if frames == [] {
      assert [] + Flatten(rest) == Flatten(rest);
    } else {
      hide Flatten, Rest;
      SegmentsConserve(frames[1..], rest, Rest(frames[0], messages));
      RestConserves(frames[0], messages);
      FlattenFirst(frames);
      Regroup(frames[0], Flatten(frames[1..]), Flatten(rest));
    }
  }

  lemma FlattenFirst(ss: seq<seq<byte>>)
    requires ss != []
    ensures Flatten(ss) == ss[0] + Flatten(ss[1..])
  {
  }

  lemma PutInv(p: Pipe, data: seq<byte>)
    requires Inv(p)
    ensures Inv(Next(p, Put(data)))
  {
    if data != [] {
      SegmentsPut(Framed(p), p.queue.messages, p.enqueued, data);
    }
  }

  lemma FrameBehind(before: seq<byte>, f: seq<byte>)
    requires ParseAll(before).1 == [] && |f| < LENGTH_LIMIT
    ensures ParseAll(before + FrameOf(f)) == (ParseAll(before).0 + [f], [])
  {
    hide FrameOf;
    ParseSplit(before, FrameOf(f));
    assert [] + FrameOf(f) == FrameOf(f) && FrameOf(f) + [] == FrameOf(f);
    ParseFrameThen(f, []);
    assert ParseAll([]) == ([], []) && [f] + [] == [f];
  }

  /** Packing adds one frame, with the payload packed, behind all that is in flight. */
  lemma TakeFrames(p: Pipe, frameSize: nat)
    requires Inv(p) && Enabled(p, Take(frameSize)) && p.queue.frame == [] && p.queue.messages != []
    ensures var m := p.queue.messages[0];
            var f, p' := m[..PayloadSize(|m|, frameSize)], Next(p, Take(frameSize));
            Framed(p') == Framed(p) + [f] && ParseAll(InFlight(p')).1 == []
  {
    var m := p.queue.messages[0];
    var f := m[..PayloadSize(|m|, frameSize)];
    var before := RawOf(p.raw, SID) + p.wire;
    hide Segments, ParseAll, RawOf;
    assert InFlight(p) == before by {
      assert p.wire + [] == p.wire;
    }
    var p' := Next(p, Take(frameSize));
    assert p'.queue.frame == FrameOf(f) && p'.wire == p.wire && p'.raw == p.raw && p'.delivered == p.delivered;
    hide Next, FrameOf, Inv, Enabled;
    FrameBehind(before, f);
    Regroup(RawOf(p.raw, SID), p.wire, FrameOf(f));
    Regroup(p.delivered, ParseAll(before).0, [f]);
  }

  lemma TakeInv(p: Pipe, frameSize: nat)
    requires Inv(p) && Enabled(p, Take(frameSize))
    ensures Inv(Next(p, Take(frameSize)))
  {
    var q := p.queue;
    if q.frame == [] && q.messages != [] {
      var m := q.messages[0];
      TakeFrames(p, frameSize);
      SegmentsTake(Framed(p), q.messages, p.enqueued, m[..PayloadSize(|m|, frameSize)]);
    }
  }

  lemma SentInv(p: Pipe, n: nat)
    requires Inv(p) && Enabled(p, Sent(n))
    ensures Inv(Next(p, Sent(n)))
  {
    assert InFlight(Next(p, Sent(n))) == InFlight(p);
  }

  /** Parsing a chunk early changes neither the frames seen in all nor the final remainder. */
  lemma FeedKeeps(raw: seq<byte>, chunk: seq<byte>, behind: seq<byte>, delivered: seq<seq<byte>>)
    ensures var (ps, rest) := ParseAll(raw + chunk);
            && (delivered + ps) + ParseAll(rest + behind).0 == delivered + ParseAll(raw + chunk + behind).0
            && ParseAll(rest + behind).1 == ParseAll(raw + chunk + behind).1
  {
    ParseSplit(raw + chunk, behind);
  }

  lemma SplitWire(raw: seq<byte>, wire: seq<byte>, frame: seq<byte>, n: nat)
    requires n <= |wire|
    ensures raw + (wire + frame) == (raw + wire[..n]) + (wire[n..] + frame)
  {
  }

  lemma ArrivedInv(p: Pipe, n: nat)
    requires Inv(p) && Enabled(p, Arrived(n))
    ensures Inv(Next(p, Arrived(n))) && Framed(Next(p, Arrived(n))) == Framed(p)
  {
    var raw := RawOf(p.raw, SID);
    if n > 0 {
      SplitWire(raw, p.wire, p.queue.frame, n);
      FeedKeeps(raw, p.wire[..n], p.wire[n..] + p.queue.frame, p.delivered);
    } else {
      assert p.wire[0..] == p.wire && p.delivered + [] == p.delivered;
    }
  }

  lemma StepInv(p: Pipe, e: Step)
    requires Inv(p) && Enabled(p, e)
    ensures Inv(Next(p, e))
  {
    match e
    case Put(data) => PutInv(p, data);
    case Take(frameSize) => TakeInv(p, frameSize);
    case Sent(n) => SentInv(p, n);
    case Arrived(n) => ArrivedInv(p, n);
  }

  ghost predicate Run(p: Pipe, es: seq<Step>, p': Pipe)
    decreases |es|
  {
    if es == [] then p' == p
    else ValidQueue(p.queue) && Enabled(p, es[0]) && Run(Next(p, es[0]), es[1..], p')
  }

  lemma {:induction false} RunInv(p: Pipe, es: seq<Step>, p': Pipe)
    requires Inv(p) && Run(p, es, p')
    ensures Inv(p')
    decreases |es|
  {
    if es != [] {
      StepInv(p, es[0]);
      RunInv(Next(p, es[0]), es[1..], p');
    }
  }

  /** Nothing is lost, repeated or reordered: in every reachable state the bytes delivered, in
      flight and waiting are, in this order, the bytes enqueued; and what is in flight is framed
      without a remainder. */
  lemma Conservation(es: seq<Step>, p: Pipe)
    requires Run(Start(), es, p)
    ensures ParseAll(InFlight(p)).1 == []
    ensures Flatten(p.delivered) + Flatten(ParseAll(InFlight(p)).0) + Flatten(p.queue.messages) == Flatten(p.enqueued)
    ensures Segments(p.delivered + ParseAll(InFlight(p)).0, p.queue.messages, p.enqueued)
  {
    RunInv(Start(), es, p);
    SegmentsConserve(Framed(p), p.queue.messages, p.enqueued);
    FlattenConcat(p.delivered, ParseAll(InFlight(p)).0);
  }

  // ---- Messages that fit one frame ----

  predicate FitsOne(m: seq<byte>, frameSize: nat) {
    |m| + HEADER_SIZE <= frameSize && |m| < LENGTH_LIMIT
  }

  /** A run with one frame size throughout, and only messages that fit it. */
  predicate FitRun(es: seq<Step>, frameSize: nat) {
    forall i :: 0 <= i < |es| ==>
      (es[i].Take? ==> es[i].frameSize == frameSize) && (es[i].Put? ==> FitsOne(es[i].data, frameSize))
  }

  ghost predicate WholeInv(p: Pipe, frameSize: nat) {
    && Inv(p) && Framed(p) + p.queue.messages == p.enqueued
    && forall i :: 0 <= i < |p.queue.messages| ==> FitsOne(p.queue.messages[i], frameSize)
  }

  lemma PutWhole(p: Pipe, data: seq<byte>, frameSize: nat)
    requires WholeInv(p, frameSize) && FitsOne(data, frameSize)
    ensures WholeInv(Next(p, Put(data)), frameSize)
  {
    PutInv(p, data);
    hide Inv, FitsOne, Framed;
    FramedSame(p, data);
    assert Framed(p) + (p.queue.messages + [data]) == (Framed(p) + p.queue.messages) + [data];
  }

  lemma FramedSame(p: Pipe, data: seq<byte>)
    requires ValidQueue(p.queue)
    ensures Framed(Next(p, Put(data))) == Framed(p)
  {
  }

  /** A step that moves bytes in flight keeps the correspondence. */
  lemma WholeKept(p: Pipe, p': Pipe, frameSize: nat)
    requires WholeInv(p, frameSize) && Inv(p') && Framed(p') == Framed(p)
    requires p'.queue.messages == p.queue.messages && p'.enqueued == p.enqueued
    ensures WholeInv(p', frameSize)
  {
    hide Inv, Framed, FitsOne;
  }

  lemma StepWhole(p: Pipe, e: Step, frameSize: nat)
    requires WholeInv(p, frameSize) && Enabled(p, e) && FitRun([e], frameSize)
    ensures WholeInv(Next(p, e), frameSize)
  {
    assert [e][0] == e;
    match e
    case Put(data) => PutWhole(p, data, frameSize);
    case Take(_) =>
      var q := p.queue;
      if q.frame == [] && q.messages != [] {
        TakeWhole(p, frameSize);
      }
    case Sent(n) =>
      SentInv(p, n);
      assert InFlight(Next(p, Sent(n))) == InFlight(p);
      WholeKept(p, Next(p, Sent(n)), frameSize);
    case Arrived(n) =>
      ArrivedInv(p, n);
      WholeKept(p, Next(p, Arrived(n)), frameSize);
  }

  lemma TakeWhole(p: Pipe, frameSize: nat)
    requires WholeInv(p, frameSize) && p.queue.frame == [] && p.queue.messages != []
    ensures Enabled(p, Take(frameSize))
    ensures WholeInv(Next(p, Take(frameSize)), frameSize)
  {
    var q := p.queue;
    var m := q.messages[0];
    assert m != [] && FitsOne(m, frameSize) && PayloadSize(|m|, frameSize) == |m| && m[..|m|] == m;
    TakeInv(p, frameSize);
    TakeFrames(p, frameSize);
    hide Framed, Inv, FrameOf;
    assert Framed(p) + q.messages == (Framed(p) + [m]) + q.messages[1..];
  }

  lemma {:induction false} RunWhole(p: Pipe, es: seq<Step>, p': Pipe, frameSize: nat)
    requires WholeInv(p, frameSize) && Run(p, es, p') && FitRun(es, frameSize)
    ensures WholeInv(p', frameSize)
    decreases |es|
  {
    if es != [] {
      assert FitRun([es[0]], frameSize);
      StepWhole(p, es[0], frameSize);
      RunWhole(Next(p, es[0]), es[1..], p', frameSize);
    }
  }

  /** When every message fits the frame size, payloads and messages correspond one to one: those
      delivered are a prefix of the non-empty messages enqueued. */
  lemma Preservation(es: seq<Step>, p: Pipe, frameSize: nat)
    requires Run(Start(), es, p) && FitRun(es, frameSize)
    ensures p.delivered + ParseAll(InFlight(p)).0 + p.queue.messages == p.enqueued
    ensures p.delivered <= p.enqueued
  {
    RunWhole(Start(), es, p, frameSize);
  }

  // ---- How messages are cut ----

  /** A message in pieces of k bytes, the last one shorter if need be. */
  function Pieces(m: seq<byte>, k: nat): seq<seq<byte>>
    requires k > 0
  {
    if |m| <= k then (if m == [] then [] else [m]) else [m[..k]] + Pieces(m[k..], k)
  }

  function PiecesAll(ms: seq<seq<byte>>, k: nat): seq<seq<byte>>
    requires k > 0
  {
    if ms == [] then [] else Pieces(ms[0], k) + PiecesAll(ms[1..], k)
  }

  /** As many pieces as k goes into the length, rounded up; all of k bytes but the last. */
  lemma {:induction false} PiecesShape(m: seq<byte>, k: nat)
    requires k > 0
    ensures var ps := Pieces(m, k);
      && Flatten(ps) == m
      && |ps| == (|m| + k - 1) / k
      && forall i :: 0 <= i < |ps| ==> |ps[i]| == if i < |ps| - 1 then k else |m| - (|ps| - 1) * k
    decreases |m|
  {
    if |m| > k {
      PiecesShape(m[k..], k);
      var ps, rest := Pieces(m, k), Pieces(m[k..], k);
      assert ps[1..] == rest && m == m[..k] + m[k..];
      RoundsUp(|m|, k);
      MoreRest(|m|, |rest|, k);
      forall i | 0 <= i < |ps|
        ensures |ps[i]| == if i < |ps| - 1 then k else |m| - (|ps| - 1) * k
      {
        assert i > 0 ==> ps[i] == rest[i - 1];
      }
    } else if m != [] {
      assert [m][1..] == [] && m + [] == m;
      RoundsToOne(|m|, k);
    } else {
      RoundsToNone(k);
    }
  }

  lemma RoundsUp(n: nat, k: nat)
    requires n > k > 0
    ensures (n + k - 1) / k == (n - k + k - 1) / k + 1
  {
    var q, r := (n - 1) / k, (n - 1) % k;
    MulStep(q, k);
    DivUnique(n + k - 1, k, q + 1, r);
  }

  lemma RoundsToOne(n: nat, k: nat)
    requires 0 < n <= k
    ensures (n + k - 1) / k == 1
  {
    DivUnique(n + k - 1, k, 1, n - 1);
  }

  lemma RoundsToNone(k: nat)
    requires k > 0
    ensures (k - 1) / k == 0
  {
    DivUnique(k - 1, k, 0, k - 1);
  }

  lemma MoreRest(n: nat, c: nat, k: nat)
    requires n >= k
    ensures n - k - (c - 1) * k == n - c * k
  {
  }

  lemma {:induction false} PiecesPut(ms: seq<seq<byte>>, m: seq<byte>, k: nat)
    requires k > 0
    ensures PiecesAll(ms + [m], k) == PiecesAll(ms, k) + Pieces(m, k)
  {
    if ms == [] {
      assert ([] + [m])[1..] == [] && Pieces(m, k) + [] == Pieces(m, k);
    } else {
      assert (ms + [m])[1..] == ms[1..] + [m];
      PiecesPut(ms[1..], m, k);
      Regroup(Pieces(ms[0], k), PiecesAll(ms[1..], k), Pieces(m, k));
    }
  }

  /** Taking the first piece of the first message leaves the others. */
  lemma PiecesTake(ms: seq<seq<byte>>, k: nat)
    requires k > 0 && ms != [] && ms[0] != []
    ensures var f := ms[0][..Min(|ms[0]|, k)];
      PiecesAll(ms, k) == [f] + PiecesAll(Rest(f, ms), k)
  {
    var m := ms[0];
    var f := m[..Min(|m|, k)];
    if |m| <= k {
      assert m[..|m|] == m;
    } else {
      assert Rest(f, ms)[0] == m[k..] && Rest(f, ms)[1..] == ms[1..];
      Regroup([f], Pieces(m[k..], k), PiecesAll(ms[1..], k));
    }
  }

  /** A run with one frame size throughout. */
  predicate SizedRun(es: seq<Step>, frameSize: nat) {
    forall i :: 0 <= i < |es| ==> es[i].Take? ==> es[i].frameSize == frameSize
  }

  ghost predicate Cut(p: Pipe, frameSize: nat)
    requires frameSize > HEADER_SIZE
  {
    Inv(p) && Framed(p) + PiecesAll(p.queue.messages, frameSize - HEADER_SIZE)
              == PiecesAll(p.enqueued, frameSize - HEADER_SIZE)
  }

  lemma PutCut(p: Pipe, data: seq<byte>, frameSize: nat)
    requires HEADER_SIZE < frameSize && Cut(p, frameSize)
    ensures Cut(Next(p, Put(data)), frameSize)
  {
    var k := frameSize - HEADER_SIZE;
    PutInv(p, data);
    FramedSame(p, data);
    PiecesPut(p.queue.messages, data, k);
    PiecesPut(p.enqueued, data, k);
    hide Inv, Framed, PiecesAll;
    Regroup(Framed(p), PiecesAll(p.queue.messages, k), Pieces(data, k));
  }

  lemma TakeCut(p: Pipe, frameSize: nat)
    requires HEADER_SIZE < frameSize < LENGTH_LIMIT && Cut(p, frameSize) && Enabled(p, Take(frameSize))
    requires p.queue.frame == [] && p.queue.messages != []
    ensures Cut(Next(p, Take(frameSize)), frameSize)
  {
    var k, m := frameSize - HEADER_SIZE, p.queue.messages[0];
    var f := m[..Min(|m|, k)];
    assert m != [];
    TakeInv(p, frameSize);
    TakeFrames(p, frameSize);
    assert PayloadSize(|m|, frameSize) == |f|;
    var p' := Next(p, Take(frameSize));
    assert p'.queue.messages == Rest(f, p.queue.messages);
    PiecesTake(p.queue.messages, k);
    hide Inv, Framed, PiecesAll, Next, Rest;
    Regroup(Framed(p), [f], PiecesAll(p'.queue.messages, k));
  }

  lemma StepCut(p: Pipe, e: Step, frameSize: nat)
    requires HEADER_SIZE < frameSize < LENGTH_LIMIT && Cut(p, frameSize) && Enabled(p, e)
    requires e.Take? ==> e.frameSize == frameSize
    ensures Cut(Next(p, e), frameSize)
  {
    match e
    case Put(data) => PutCut(p, data, frameSize);
    case Take(_) =>
      if p.queue.frame == [] && p.queue.messages != [] {
        TakeCut(p, frameSize);
      }
    case Sent(n) =>
      SentInv(p, n);
      assert InFlight(Next(p, Sent(n))) == InFlight(p);
    case Arrived(n) =>
      ArrivedInv(p, n);
  }

  lemma {:induction false} RunCut(p: Pipe, es: seq<Step>, p': Pipe, frameSize: nat)
    requires HEADER_SIZE < frameSize < LENGTH_LIMIT && Cut(p, frameSize) && Run(p, es, p') && SizedRun(es, frameSize)
    ensures Cut(p', frameSize)
    decreases |es|
  {
    if es != [] {
      StepCut(p, es[0], frameSize);
      RunCut(Next(p, es[0]), es[1..], p', frameSize);
    }
  }

  /** With one frame size, whatever is enqueued, sent and received in between: the payloads framed are
      the messages cut into pieces that fill a frame, each message on its own; those still to come are
      the pieces of what is queued. PiecesShape says how many there are and how long. */
  lemma Cutting(es: seq<Step>, p: Pipe, frameSize: nat)
    requires HEADER_SIZE < frameSize < LENGTH_LIMIT && Run(Start(), es, p) && SizedRun(es, frameSize)
    ensures var k := frameSize - HEADER_SIZE;
      p.delivered + ParseAll(InFlight(p)).0 + PiecesAll(p.queue.messages, k) == PiecesAll(p.enqueued, k)
  {
    RunCut(Start(), es, p, frameSize);
  }
}
