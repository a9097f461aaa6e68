/** The writer pool seen from one socket (include/pfs/netty/writer_pool.hpp): every run of the pool is a
    run of the socket's account, whatever happens to the others. */
module WriterPoolBytes {
  import opened Prelude
  import opened Framing
  import opened WriterQueues
  import opened WriterAccounts
  import opened WriterPools
  import B = WriterBytes
  import T = WriterTurns
  import R = WriterPoolRuns
  import Pipelines

  /** The turn of sid in a round of sending, if it comes to that before a check throws. */
  ghost function TurnsTaken(p: Pool, order: seq<int>, turns: map<int, Turn>, sid: int): seq<B.Step>
    requires ValidPool(p) && R.InTurns(order, turns)
    decreases |order|
  {
    if order == [] || p.fired then []
    else
      TurnedValid(p, order[0], turns[order[0]]);
      (if order[0] == sid && sid in p.accounts then [B.Does(DoTurn(turns[sid]))] else [])
      + TurnsTaken(Turned(p, order[0], turns[order[0]]), order[1..], turns, sid)
  }

  /** What an event of the pool is for the account of sid. */
  ghost function StepsOf(s: R.State, e: R.Event, sid: int): seq<B.Step>
    requires R.Enabled(s, e)
  {
    match e
    case Enqueue(sid', data, _, _, _) => if sid' == sid && data != [] then [B.Does(Put(data))] else []
    case SetFrameSize(sid', frameSize) => if sid' == sid then [B.Resize(frameSize)] else []
    case Step(order, turns, fds, ready, failed, _) =>
      var p := s.pool.(fired := false);
      TurnsTaken(p, order, turns, sid)
      + if sid in fds && ready[sid].CanTake? && !failed && !SentAll(p, order, turns).fired
        then [B.Does(CanWrite(ready[sid].now))] else []
    case _ => []
  }

  lemma {:induction false} ThroughConcat(a: Account, ss: seq<B.Step>, ss': seq<B.Step>)
    requires ValidQueue(a.q)
    ensures var (b, bytes) := B.Through(a, ss);
      ValidQueue(b.q)
      && B.Through(a, ss + ss') == (B.Through(b, ss').0, bytes + B.Through(b, ss').1)
    decreases |ss|
  {
    if ss == [] {
      assert ss + ss' == ss';
      assert [] + B.Through(a, ss').1 == B.Through(a, ss').1;
    } else {
      B.SteppedValid(a, ss[0]);
      var (b, out) := B.Stepped(a, ss[0]);
      ThroughConcat(b, ss[1..], ss');
      assert (ss + ss')[1..] == ss[1..] + ss';
      var (c, bytes) := B.Through(b, ss[1..]);
      Regroup(out.bytes, bytes, B.Through(c, ss').1);
    }
  }

  lemma ThroughOne(a: Account, s: B.Step)
    requires ValidQueue(a.q)
    ensures B.Through(a, [s]) == (B.Stepped(a, s).0, B.Stepped(a, s).1.bytes)
  {
    B.SteppedValid(a, s);
    assert [s][1..] == [] && B.Stepped(a, s).1.bytes + [] == B.Stepped(a, s).1.bytes;
  }

  /** In a round the account takes that turn and no other account's. */
  lemma {:induction false} RoundRefines(p: Pool, order: seq<int>, turns: map<int, Turn>, sid: int)
    requires ValidPool(p) && R.InTurns(order, turns) && sid in p.accounts
    ensures var q := SentAll(p, order, turns);
      sid in q.accounts && q.accounts[sid] == B.Through(p.accounts[sid], TurnsTaken(p, order, turns, sid)).0
    decreases |order|
  {
    if order != [] && !p.fired {
      TurnedValid(p, order[0], turns[order[0]]);
      var p' := Turned(p, order[0], turns[order[0]]);
      var rest := TurnsTaken(p', order[1..], turns, sid);
      RoundRefines(p', order[1..], turns, sid);
      if order[0] == sid {
        var turn := B.Does(DoTurn(turns[sid]));
        ThroughOne(p.accounts[sid], turn);
        ThroughConcat(p.accounts[sid], [turn], rest);
      } else {
        assert [] + rest == rest;
      }
    }
  }

  lemma StepRefines(s: R.State, e: R.Event, sid: int)
    requires R.Enabled(s, e) && e.Step? && sid in s.pool.accounts
    ensures var s' := R.After(s, e);
      sid in s'.pool.accounts && s'.pool.accounts[sid] == B.Through(s.pool.accounts[sid], StepsOf(s, e, sid)).0
  {
    hide TurnsTaken, SentAll, SendTurn, ValidQueue, B.Through;
    var p := s.pool.(fired := false);
    var a, q := s.pool.accounts[sid], SentAll(p, e.order, e.turns);
    var taken := TurnsTaken(p, e.order, e.turns, sid);
    RoundRefines(p, e.order, e.turns, sid);
    R.ReportedAllAt(Drained(q), e.fds, e.ready, sid);
    assert taken + [] == taken;
    if sid in e.fds && e.ready[sid].CanTake? && !e.failed && !q.fired {
      var told := B.Does(CanWrite(e.ready[sid].now));
      ThroughConcat(a, taken, [told]);
      ThroughOne(B.Through(a, taken).0, told);
    }
  }

  /** The account as it is, or as the event makes it if it is new. */
  ghost function AccountOf(s: R.State, e: R.Event, sid: int): Account
    requires sid in s.pool.accounts || e.Add? || e.Enqueue?
  {
    if sid in s.pool.accounts then s.pool.accounts[sid] else NewAccount(e.now, e.rate, e.mode)
  }

  /** An account that stays, or comes, goes through exactly the steps that concern it. */
  lemma EventRefines(s: R.State, e: R.Event, sid: int)
    requires R.Enabled(s, e) && !(e.ApplyRemove? && sid in s.pool.removable)
    ensures var s' := R.After(s, e);
      && (sid in s'.pool.accounts <==>
            sid in s.pool.accounts || (e.Add? && e.sid == sid) || (e.Enqueue? && e.sid == sid && e.data != []))
      && (sid in s'.pool.accounts ==>
            ValidQueue(AccountOf(s, e, sid).q)
            && s'.pool.accounts[sid] == B.Through(AccountOf(s, e, sid), StepsOf(s, e, sid)).0)
  {
    if e.Step? {
      SentAllKeeps(s.pool.(fired := false), e.order, e.turns);
      R.ReportedAllAt(Drained(SentAll(s.pool.(fired := false), e.order, e.turns)), e.fds, e.ready, sid);
      if sid in s.pool.accounts {
        StepRefines(s, e, sid);
      }
    } else if e.Enqueue? && e.sid == sid && e.data != [] {
      ThroughOne(AccountOf(s, e, sid), B.Does(Put(e.data)));
    } else if e.SetFrameSize? && e.sid == sid && sid in s.pool.accounts {
      ThroughOne(s.pool.accounts[sid], B.Resize(e.frameSize));
    }
  }

  // ---- Runs ----

  /** The bytes the socket takes in one event. */
  ghost function WireOf(s: R.State, e: R.Event, sid: int): seq<byte>
    requires R.Enabled(s, e)
  {
    if e.Step? && sid in s.pool.accounts then B.Through(s.pool.accounts[sid], StepsOf(s, e, sid)).1 else []
  }

  /** The bytes the socket takes over a run. */
  ghost function Wire(s: R.State, es: seq<R.Event>, sid: int): seq<byte>
    requires R.Legal(s, es)
    decreases |es|
  {
    if es == [] then [] else WireOf(s, es[0], sid) + Wire(R.After(s, es[0]), es[1..], sid)
  }

  /** The non-empty data enqueued for the socket. */
  function Data(es: seq<R.Event>, sid: int): seq<seq<byte>> {
    if es == [] then [] else DataOf(es[0], sid) + Data(es[1..], sid)
  }

  function DataOf(e: R.Event, sid: int): seq<seq<byte>> {
    if e.Enqueue? && e.sid == sid && e.data != [] then [e.data] else []
  }

  /** The socket never takes more than it is offered. */
  ghost predicate HonestRun(s: R.State, es: seq<R.Event>, sid: int)
    requires R.Legal(s, es)
    decreases |es|
  {
    es == [] ||
    ((es[0].Step? && sid in s.pool.accounts ==> B.Honest(s.pool.accounts[sid], StepsOf(s, es[0], sid)))
     && HonestRun(R.After(s, es[0]), es[1..], sid))
  }

  /** What is known of the socket's account, if it has one; else nothing has been sent or queued yet. */
  ghost predicate Known(p: Pool, sid: int, wire: seq<byte>, put: seq<seq<byte>>) {
    if sid in p.accounts then B.Carried(wire, p.accounts[sid].q, put) else wire == [] && put == []
  }

  lemma NewIsCarried(now: int, rate: nat, mode: Throttling)
    ensures B.Carried([], NewAccount(now, rate, mode).q, [])
  {
    var none: seq<seq<byte>>, nothing: seq<byte> := [], [];
    assert ParseAll(nothing + nothing) == (none, nothing);
  }

  lemma StepsMessages(s: R.State, e: R.Event, sid: int)
    requires R.Enabled(s, e)
    ensures B.Messages(StepsOf(s, e, sid)) == DataOf(e, sid)
  {
    if e.Step? {
      var p := s.pool.(fired := false);
      TurnsSilent(p, e.order, e.turns, sid);
      var taken := TurnsTaken(p, e.order, e.turns, sid);
      assert taken + [] == taken;
      if sid in e.fds && e.ready[sid].CanTake? {
        var told := B.Does(CanWrite(e.ready[sid].now));
        MessagesConcat(taken, [told]);
        assert B.Messages([told]) == [] by {
          assert [told][1..] == [];
        }
      }
      hide B.Messages;
    }
  }

  lemma {:induction false} TurnsSilent(p: Pool, order: seq<int>, turns: map<int, Turn>, sid: int)
    requires ValidPool(p) && R.InTurns(order, turns)
    ensures B.Messages(TurnsTaken(p, order, turns, sid)) == []
    decreases |order|
  {
    if order != [] && !p.fired {
      TurnedValid(p, order[0], turns[order[0]]);
      var rest := TurnsTaken(Turned(p, order[0], turns[order[0]]), order[1..], turns, sid);
      TurnsSilent(Turned(p, order[0], turns[order[0]]), order[1..], turns, sid);
      assert [] + rest == rest;
      MessagesConcat([B.Does(DoTurn(turns[order[0]]))], rest);
    }
  }

  lemma {:induction false} MessagesConcat(ss: seq<B.Step>, ss': seq<B.Step>)
    ensures B.Messages(ss + ss') == B.Messages(ss) + B.Messages(ss')
  {
    if ss == [] {
      assert ss + ss' == ss';
    } else {
      MessagesConcat(ss[1..], ss');
      assert (ss + ss')[1..] == ss[1..] + ss';
      Regroup(B.MessageOf(ss[0]), B.Messages(ss[1..]), B.Messages(ss'));
    }
  }

  /** A step without a turn puts nothing on the wire. */
  lemma NoTurnNoBytes(s: R.State, e: R.Event, sid: int)
    requires R.Enabled(s, e) && !e.Step? && sid in R.After(s, e).pool.accounts && ValidQueue(AccountOf(s, e, sid).q)
    requires sid in s.pool.accounts || e.Add? || e.Enqueue?
    ensures B.Through(AccountOf(s, e, sid), StepsOf(s, e, sid)).1 == []
    ensures B.Honest(AccountOf(s, e, sid), StepsOf(s, e, sid))
  {
    if e.Enqueue? && e.sid == sid && e.data != [] {
      ThroughOne(AccountOf(s, e, sid), B.Does(Put(e.data)));
    } else if e.SetFrameSize? && e.sid == sid {
      ThroughOne(AccountOf(s, e, sid), B.Resize(e.frameSize));
    }
  }

  lemma EventKnown(s: R.State, e: R.Event, sid: int, wire: seq<byte>, put: seq<seq<byte>>)
    requires R.Enabled(s, e) && !(e.ApplyRemove? && sid in s.pool.removable) && Known(s.pool, sid, wire, put)
    requires e.Step? && sid in s.pool.accounts ==> B.Honest(s.pool.accounts[sid], StepsOf(s, e, sid))
    ensures Known(R.After(s, e).pool, sid, wire + WireOf(s, e, sid), put + DataOf(e, sid))
  {
    EventRefines(s, e, sid);
    assert wire + [] == wire && put + [] == put;
    var s' := R.After(s, e);
    if sid in s'.pool.accounts {
      var a := AccountOf(s, e, sid);
      if sid !in s.pool.accounts {
        NewIsCarried(e.now, e.rate, e.mode);
      }
      if !e.Step? {
        NoTurnNoBytes(s, e, sid);
      }
      StepsMessages(s, e, sid);
      hide B.Carried;
      B.RunCarries(wire, a, put, StepsOf(s, e, sid));
    }
  }

  lemma {:induction false} RunKnown(s: R.State, es: seq<R.Event>, sid: int, wire: seq<byte>, put: seq<seq<byte>>)
    requires R.Legal(s, es) && !R.Dropped(s, es, sid) && HonestRun(s, es, sid) && Known(s.pool, sid, wire, put)
    ensures Known(R.Final(s, es).pool, sid, wire + Wire(s, es, sid), put + Data(es, sid))
    decreases |es|
  {
    if es == [] {
      assert wire + [] == wire && put + [] == put;
    } else {
      EventKnown(s, es[0], sid, wire, put);
      hide Known, WireOf, R.Enabled, R.After;
      RunKnown(R.After(s, es[0]), es[1..], sid, wire + WireOf(s, es[0], sid), put + DataOf(es[0], sid));
      Regroup(wire, WireOf(s, es[0], sid), Wire(R.After(s, es[0]), es[1..], sid));
      Regroup(put, DataOf(es[0], sid), Data(es[1..], sid));
    }
  }

  /** Over every run of the pool from the start, for a socket whose account is not removed: what the
      socket has taken and its pending frame are whole frames; their payloads and its queue are, in
      order, the data enqueued for it, whatever happens to the others. */
  lemma SocketCarries(at: int, es: seq<R.Event>, sid: int)
    requires R.Legal(R.State(R.FRESH, at), es) && !R.Dropped(R.State(R.FRESH, at), es, sid)
    requires HonestRun(R.State(R.FRESH, at), es, sid) && sid in R.Final(R.State(R.FRESH, at), es).pool.accounts
    ensures var wire := Wire(R.State(R.FRESH, at), es, sid);
      var q := R.Final(R.State(R.FRESH, at), es).pool.accounts[sid].q;
      && ParseAll(wire + q.frame).1 == []
      && Pipelines.Segments(ParseAll(wire + q.frame).0, q.messages, Data(es, sid))
      && Flatten(ParseAll(wire + q.frame).0) + Flatten(q.messages) == Flatten(Data(es, sid))
  {
    hide Wire, Data, HonestRun, R.Final, R.Legal, R.Dropped, ParseAll, Flatten, Pipelines.Segments;
    var s := R.State(R.FRESH, at);
    RunKnown(s, es, sid, [], []);
    var wire, q := Wire(s, es, sid), R.Final(s, es).pool.accounts[sid].q;
    assert [] + wire == wire && [] + Data(es, sid) == Data(es, sid);
    Pipelines.SegmentsConserve(ParseAll(wire + q.frame).0, q.messages, Data(es, sid));
  }

  // ---- What is removed, and what the poller watches ----

  /** A step schedules an account for removal exactly when the account calls send and its socket is not
      known or fails, or the poll reports that its socket is broken. */
  lemma RemovedIff(s: R.State, e: R.Event, sid: int)
    requires R.Enabled(s, e) && e.Step? && sid in s.pool.accounts && !R.After(s, e).pool.fired
    ensures sid in R.After(s, e).pool.removable <==>
      || sid in s.pool.removable
      || (var t := e.turns[sid]; T.Asks(s.pool.accounts[sid], t) && (!t.found || t.res.Failure? || t.res.Network?))
      || (!e.failed && sid in e.fds && e.ready[sid].Broken?)
  {
    var p := s.pool.(fired := false);
    SentAllKeeps(p, e.order, e.turns);
    R.SentAllAt(p, e.order, e.turns, sid);
    T.TurnAnswers(s.pool.accounts[sid], e.turns[sid]);
    assert sid in ToSet(e.order);
    R.ReportedAllAt(Drained(SentAll(p, e.order, e.turns)), e.fds, e.ready, sid);
  }

  lemma EventWatches(s: R.State, e: R.Event)
    requires R.Enabled(s, e) && s.pool.registered <= s.pool.accounts.Keys
    ensures R.After(s, e).pool.registered <= R.After(s, e).pool.accounts.Keys
  {
    if e.Step? {
      var p := s.pool.(fired := false);
      SentAllKeeps(p, e.order, e.turns);
      R.ReportedAllAt(Drained(SentAll(p, e.order, e.turns)), e.fds, e.ready, 0);
    }
  }

  /** In every reachable state only sockets that have an account are watched: one removed is not, until
      it is added again. */
  lemma {:induction false} OnlyAccountsWatched(s: R.State, es: seq<R.Event>)
    requires R.Legal(s, es) && s.pool.registered <= s.pool.accounts.Keys
    ensures R.Final(s, es).pool.registered <= R.Final(s, es).pool.accounts.Keys
    decreases |es|
  {
    if es != [] {
      EventWatches(s, es[0]);
      OnlyAccountsWatched(R.After(s, es[0]), es[1..]);
    }
  }
}
