/** What do_send puts on the wire (include/pfs/netty/writer_pool.hpp): over whole runs of an account
    with partial, full and refused sends, the frames of its messages, in order, without a gap. */
module WriterBytes {
  import opened Prelude
  import opened Framing
  import opened WriterQueues
  import opened WriterAccounts
  import Pipelines

  /** What an account goes through, set_frame_size included. */
  datatype Step = Does(e: Event) | Resize(frameSize: nat)

  function Stepped(a: Account, s: Step): (Account, Outcome)
    requires ValidQueue(a.q)
  {
    match s
    case Does(e) => After(a, e)
    case Resize(frameSize) => (a.(maxFrameSize := frameSize), NOTHING)
  }

  lemma SteppedValid(a: Account, s: Step)
    requires ValidQueue(a.q)
    ensures ValidQueue(Stepped(a, s).0.q)
  {
    if s.Does? {
      AfterValid(a, s.e);
    }
  }

  /** send never takes more than it is offered. */
  ghost predicate Honest(a: Account, ss: seq<Step>)
    requires ValidQueue(a.q)
    decreases |ss|
  {
    ss == [] ||
    (SteppedValid(a, ss[0]);
     (ss[0].Does? ==> HonestSend(a, ss[0].e)) && Honest(Stepped(a, ss[0]).0, ss[1..]))
  }

  /** The account after all of it, and the bytes its socket has taken. */
  ghost function Through(a: Account, ss: seq<Step>): (Account, seq<byte>)
    requires ValidQueue(a.q)
    decreases |ss|
  {
    if ss == [] then (a, [])
    else
      SteppedValid(a, ss[0]);
      var (b, out) := Stepped(a, ss[0]);
      var (c, bytes) := Through(b, ss[1..]);
      (c, out.bytes + bytes)
  }

  /** The non-empty messages enqueued. */
  function Messages(ss: seq<Step>): seq<seq<byte>> {
    if ss == [] then [] else MessageOf(ss[0]) + Messages(ss[1..])
  }

  function MessageOf(s: Step): seq<seq<byte>> {
    if s.Does? && s.e.Put? && s.e.data != [] then [s.e.data] else []
  }

  /** What the socket has taken and the pending frame are whole frames; their payloads, and the messages
      still queued, are the messages put, in order, no frame mixing two of them. */
  ghost predicate Carried(wire: seq<byte>, q: Queue, put: seq<seq<byte>>) {
    && ValidQueue(q)
    && ParseAll(wire + q.frame).1 == []
    && Pipelines.Segments(ParseAll(wire + q.frame).0, q.messages, put)
  }

  /** The same as a state of the pipeline in which nothing has arrived yet. */
  function PipeOf(wire: seq<byte>, q: Queue, put: seq<seq<byte>>): Pipelines.Pipe {
    Pipelines.Pipe(q, wire, map[], put, [])
  }

  lemma CarriedIsInv(wire: seq<byte>, q: Queue, put: seq<seq<byte>>)
    ensures Carried(wire, q, put) <==> Pipelines.Inv(PipeOf(wire, q, put))
  {
    var p := PipeOf(wire, q, put);
    assert Pipelines.InFlight(p) == wire + q.frame;
    assert Pipelines.Framed(p) == ParseAll(wire + q.frame).0;
  }

  lemma PutCarries(wire: seq<byte>, q: Queue, put: seq<seq<byte>>, data: seq<byte>)
    requires Carried(wire, q, put)
    ensures Carried(wire, Enqueued(q, data), put + if data == [] then [] else [data])
  {
    CarriedIsInv(wire, q, put);
    Pipelines.PutInv(PipeOf(wire, q, put), data);
    CarriedIsInv(wire, Enqueued(q, data), put + if data == [] then [] else [data]);
    assert put + [] == put;
  }

  lemma AcquireCarries(wire: seq<byte>, q: Queue, put: seq<seq<byte>>, size: nat)
    requires Carried(wire, q, put) && CanAcquire(q, size)
    ensures Carried(wire, Acquired(q, size), put)
  {
    CarriedIsInv(wire, q, put);
    Pipelines.TakeInv(PipeOf(wire, q, put), size);
    CarriedIsInv(wire, Acquired(q, size), put);
  }

  lemma ShiftCarries(wire: seq<byte>, q: Queue, put: seq<seq<byte>>, n: nat)
    requires Carried(wire, q, put) && 0 < n <= |q.frame|
    ensures Carried(wire + q.frame[..n], Shifted(q, n), put)
  {
    CarriedIsInv(wire, q, put);
    Pipelines.SentInv(PipeOf(wire, q, put), n);
    CarriedIsInv(wire + q.frame[..n], Shifted(q, n), put);
  }

  lemma AnswerCarries(wire: seq<byte>, a: Account, put: seq<seq<byte>>, res: SendResult)
    requires Carried(wire, a.q, put) && a.q.frame != [] && (res.Good? ==> res.n <= |a.q.frame|)
    ensures var (b, out) := Answered(a, res); Carried(wire + out.bytes, b.q, put)
  {
    hide Carried;
    assert wire + [] == wire;
    if res.Good? && res.n > 0 {
      ShiftCarries(wire, a.q, put, res.n);
    }
  }

  lemma TurnCarries(wire: seq<byte>, a: Account, put: seq<seq<byte>>, t: Turn)
    requires Carried(wire, a.q, put) && HonestSend(a, DoTurn(t))
    ensures var (b, out) := SendTurn(a, t); Carried(wire + out.bytes, b.q, put)
  {
    assert wire + [] == wire;
    var (b, size) := Tune(a, t.tuned, t.reset);
    TuneKeepsQueue(a, t);
    if CanAcquire(a.q, size) {
      AcquireCarries(wire, a.q, put, size);
      var c := b.(q := Acquired(b.q, size));
      hide Carried, Acquired, Tune;
      if c.q.frame != [] {
        AnswerCarries(wire, c, put, t.res);
      }
    }
  }

  lemma StepCarries(wire: seq<byte>, a: Account, put: seq<seq<byte>>, s: Step)
    requires Carried(wire, a.q, put) && (s.Does? ==> HonestSend(a, s.e))
    ensures var (b, out) := Stepped(a, s); Carried(wire + out.bytes, b.q, put + MessageOf(s))
  {
    assert wire + [] == wire && put + [] == put;
    hide Carried;
    if s.Does? {
      match s.e
      case Put(data) => PutCarries(wire, a.q, put, data);
      case CanWrite(_) =>
      case DoTurn(t) => TurnCarries(wire, a, put, t);
    }
  }

  lemma {:induction false} RunCarries(wire: seq<byte>, a: Account, put: seq<seq<byte>>, ss: seq<Step>)
    requires Carried(wire, a.q, put) && Honest(a, ss)
    ensures var (b, bytes) := Through(a, ss); Carried(wire + bytes, b.q, put + Messages(ss))
    decreases |ss|
  {
    if ss == [] {
      assert wire + [] == wire && put + [] == put;
    } else {
      StepCarries(wire, a, put, ss[0]);
      var (b, out) := Stepped(a, ss[0]);
      hide Carried, Stepped;
      RunCarries(wire + out.bytes, b, put + MessageOf(ss[0]), ss[1..]);
      Regroup(wire, out.bytes, Through(b, ss[1..]).1);
      Regroup(put, MessageOf(ss[0]), Messages(ss[1..]));
    }
  }

  /** Over every run of an account that starts with nothing queued, with honest sends of any kind: the
      bytes its socket has taken and the pending frame are whole frames, and their payloads and the
      queue are the messages put, in order. */
  lemma AccountCarries(a: Account, ss: seq<Step>)
    requires a.q == Queue([], []) && Honest(a, ss)
    ensures var (b, wire) := Through(a, ss);
      && ParseAll(wire + b.q.frame).1 == []
      && Pipelines.Segments(ParseAll(wire + b.q.frame).0, b.q.messages, Messages(ss))
      && Flatten(ParseAll(wire + b.q.frame).0) + Flatten(b.q.messages) == Flatten(Messages(ss))
  {
    var none: seq<seq<byte>>, nothing: seq<byte> := [], [];
    assert ParseAll(nothing + a.q.frame) == (none, nothing);
    RunCarries([], a, [], ss);
    var (b, wire) := Through(a, ss);
    assert nothing + wire == wire && none + Messages(ss) == Messages(ss);
    Pipelines.SegmentsConserve(ParseAll(wire + b.q.frame).0, b.q.messages, Messages(ss));
  }
}
