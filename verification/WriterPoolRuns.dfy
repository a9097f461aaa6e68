/** Wake-ups over whole runs of the writer pool: an account that cannot write must be watched by the
    poller, and not be about to be dropped from it, or it is never told that its socket takes data. */
module WriterPoolRuns {
  import opened Prelude
  import opened WriterQueues
  import opened WriterAccounts
  import opened WriterChecks
  import opened WriterPools

  /** polledAt is the time of the last poll; its callbacks read the clock no earlier. */
  datatype State = State(pool: Pool, polledAt: int)

  datatype Event =
    | Add(sid: int, now: int, rate: nat, mode: Throttling)
    | Enqueue(sid: int, data: seq<byte>, now: int, rate: nat, mode: Throttling)
    | SetFrameSize(sid: int, frameSize: nat)
    | RemoveLater(sid: int)
    | ApplyRemove
    | Step(order: seq<int>, turns: map<int, Turn>, fds: seq<int>, ready: map<int, Ready>, failed: bool, at: int)

  predicate Awake(p: Pool, sid: int)
    requires sid in p.accounts
  {
    p.accounts[sid].writable || (sid in p.registered && sid !in p.pending)
  }

  /** An account that will be dropped from the poller may not write before writableAt. */
  predicate Rested(p: Pool, sid: int, polledAt: int)
    requires sid in p.accounts
  {
    sid in p.pending ==> p.accounts[sid].writable && p.accounts[sid].writableAt >= polledAt + WRITE_DELAY
  }

  /** Accounts scheduled for removal from the pool are exempt. */
  predicate Live(p: Pool, sid: int) {
    sid in p.accounts && sid !in p.removable
  }

  ghost predicate Inv(s: State) {
    && ValidPool(s.pool)
    && forall sid {:trigger Live(s.pool, sid)} ::
         Live(s.pool, sid) ==> Awake(s.pool, sid) && Rested(s.pool, sid, s.polledAt)
  }

  ghost predicate Enabled(s: State, e: Event) {
    && ValidPool(s.pool)
    && (e.Step? ==>
      && Distinct(e.order) && ToSet(e.order) == s.pool.accounts.Keys == e.turns.Keys
      && InTurns(e.order, e.turns)
      && Distinct(e.fds) && InReady(e.fds, e.ready)
      && ToSet(e.fds) == SentAll(s.pool.(fired := false), e.order, e.turns).registered - s.pool.pending
      && forall fd {:trigger e.ready[fd]} :: fd in e.ready && e.ready[fd].CanTake? ==> e.at <= e.ready[fd].now)
  }

  predicate InTurns(order: seq<int>, turns: map<int, Turn>) {
    forall i :: 0 <= i < |order| ==> order[i] in turns
  }

  predicate InReady(fds: seq<int>, ready: map<int, Ready>) {
    forall i :: 0 <= i < |fds| ==> fds[i] in ready
  }

  ghost function After(s: State, e: Event): State
    requires Enabled(s, e)
  {
    match e
    case Add(sid, now, rate, mode) => s.(pool := Ensured(s.pool, sid, NewAccount(now, rate, mode)))
    case Enqueue(sid, data, now, rate, mode) => s.(pool := Queued(s.pool, sid, NewAccount(now, rate, mode), data))
    case SetFrameSize(sid, frameSize) => s.(pool := Resized(s.pool, sid, frameSize))
    case RemoveLater(sid) => s.(pool := s.pool.(removable := s.pool.removable + {sid}))
    case ApplyRemove => s.(pool := Removed(s.pool))
    case Step(order, turns, fds, ready, failed, at) =>
      var p := Stepped(s.pool, order, turns, fds, ready, failed);
      State(p, if p.fired then s.polledAt else at)
  }

  // ---- What a round of sending and a poll do to one account ----

  predicate Untouched(p: Pool, q: Pool, sid: int)
    requires sid in p.accounts && sid in q.accounts
  {
    && q.accounts[sid] == p.accounts[sid] && (sid in q.registered <==> sid in p.registered)
    && (sid in q.removable <==> sid in p.removable)
  }

  ghost predicate TookTurn(p: Pool, q: Pool, sid: int, t: Turn)
    requires ValidPool(p) && sid in p.accounts && sid in q.accounts
  {
    var (a, out) := SendTurn(p.accounts[sid], t);
    && q.accounts[sid] == a
    && (sid in q.registered <==> sid in p.registered || out.waits)
    && (sid in q.removable <==> sid in p.removable || out.removes)
  }

  /** Everyone in the round gets exactly one turn, unless a check throws before theirs. */
  lemma {:induction false} SentAllAt(p: Pool, order: seq<int>, turns: map<int, Turn>, sid: int)
    requires ValidPool(p) && InTurns(order, turns) && Distinct(order) && sid in p.accounts
    ensures var q := SentAll(p, order, turns);
      && sid in q.accounts && p.removable <= q.removable
      && (Untouched(p, q, sid) || (sid in order && TookTurn(p, q, sid, turns[sid])))
      && (!q.fired && sid in order ==> TookTurn(p, q, sid, turns[sid]))
    decreases |order|
  {
    if order != [] && !p.fired {
      var head := order[0];
      TurnedValid(p, head, turns[head]);
      var p' := Turned(p, head, turns[head]);
      SentAllAt(p', order[1..], turns, sid);
      if sid == head {
        assert sid !in order[1..];
      }
    }
  }

  /** The callbacks of a poll concern only the descriptors it found ready. */
  lemma {:induction false} ReportedAllAt(p: Pool, fds: seq<int>, ready: map<int, Ready>, sid: int)
    requires InReady(fds, ready) && Distinct(fds)
    ensures var q := ReportedAll(p, fds, ready);
      && q.registered == p.registered && q.accounts.Keys == p.accounts.Keys && p.removable <= q.removable && q.fired == p.fired
      && (sid in q.pending <==> sid in p.pending || (sid in fds && (ready[sid].CanTake? || ready[sid].Broken?)))
      && (sid in q.removable <==> sid in p.removable || (sid in fds && ready[sid].Broken?))
      && (sid in p.accounts ==>
            q.accounts[sid] == if sid in fds && ready[sid].CanTake? then WriterAccounts.Writable(p.accounts[sid], ready[sid].now)
                               else p.accounts[sid])
    decreases |fds|
  {
    if fds != [] {
      var p' := Reported(p, fds[0], ready[fds[0]]);
      ReportedAllAt(p', fds[1..], ready, sid);
      if sid == fds[0] {
        assert sid !in fds[1..];
      }
    }
  }

  lemma {:induction false} ReportedAllValid(p: Pool, fds: seq<int>, ready: map<int, Ready>)
    requires InReady(fds, ready) && ValidPool(p)
    ensures ValidPool(ReportedAll(p, fds, ready))
    decreases |fds|
  {
    if fds != [] {
      ReportedAllValid(Reported(p, fds[0], ready[fds[0]]), fds[1..], ready);
    }
  }

  lemma AfterValidPool(s: State, e: Event)
    requires Enabled(s, e)
    ensures ValidPool(After(s, e).pool)
  {
    if e.Step? {
      var q := SentAll(s.pool.(fired := false), e.order, e.turns);
      ReportedAllValid(Drained(q), e.fds, e.ready);
    }
  }

  // ---- When a step keeps an account awake ----

  /** The account's socket refuses its frame in this step. */
  ghost predicate Refused(s: State, e: Event, sid: int)
    requires Enabled(s, e) && e.Step? && sid in s.pool.accounts
  {
    SendTurn(s.pool.accounts[sid], e.turns[sid]).1.waits
  }

  /** A refusal leaves the account not writable; otherwise the flag is not touched. A turn before
      writableAt does nothing. */
  lemma TurnFacts(a: Account, t: Turn)
    requires ValidQueue(a.q)
    ensures var (b, out) := SendTurn(a, t);
      && b.writable == (a.writable && !out.waits) && b.writableAt == a.writableAt
      && (!a.writable || t.now < a.writableAt ==> b == a && out == NOTHING)
  {
  }

  /** What a step does to an account that was awake: it sleeps for good exactly when its socket
      refuses a frame while the poller is about to drop the socket. */
  lemma StepAwakeIff(s: State, e: Event, sid: int)
    requires Enabled(s, e) && e.Step? && Live(s.pool, sid) && Awake(s.pool, sid)
    requires !After(s, e).pool.fired && Live(After(s, e).pool, sid)
    ensures Awake(After(s, e).pool, sid) <==> !(sid in s.pool.pending && Refused(s, e, sid))
  {
    var p := s.pool.(fired := false);
    SentAllKeeps(p, e.order, e.turns);
    SentAllAt(p, e.order, e.turns, sid);
    TurnFacts(s.pool.accounts[sid], e.turns[sid]);
    var q := SentAll(p, e.order, e.turns);
    assert sid in ToSet(e.order);
    assert sid in e.fds <==> sid in ToSet(e.fds);
    ReportedAllAt(Drained(q), e.fds, e.ready, sid);
  }

  /** A step in which a check throws does not come to poll: the poller drops nothing, and keeps its notes. */
  lemma ThrowSkipsPoll(s: State, e: Event)
    requires Enabled(s, e) && e.Step? && After(s, e).pool.fired
    ensures var (p, q) := (s.pool, After(s, e).pool);
      && q.pending == p.pending && p.registered <= q.registered && p.removable <= q.removable
      && q.accounts.Keys == p.accounts.Keys
  {
    var p := s.pool.(fired := false);
    SentAllKeeps(p, e.order, e.turns);
    ReportedAllAt(Drained(SentAll(p, e.order, e.turns)), e.fds, e.ready, 0);
    SentAllGrows(p, e.order, e.turns);
  }

  lemma {:induction false} SentAllGrows(p: Pool, order: seq<int>, turns: map<int, Turn>)
    requires ValidPool(p) && InTurns(order, turns)
    ensures p.registered <= SentAll(p, order, turns).registered && p.removable <= SentAll(p, order, turns).removable
    decreases |order|
  {
    if order != [] && !p.fired {
      TurnedValid(p, order[0], turns[order[0]]);
      SentAllGrows(Turned(p, order[0], turns[order[0]]), order[1..], turns);
    }
  }

  /** A socket the last poll found ready gets its turns of the next round before it may write. */
  ghost predicate Timely(s: State, e: Event) {
    e.Step? ==> forall sid {:trigger e.turns[sid]} ::
      sid in s.pool.pending && sid in e.turns ==> e.turns[sid].now < s.polledAt + WRITE_DELAY
  }

  /** A socket the poller is about to drop is not given a new account. */
  predicate Unparked(s: State, e: Event) {
    e.Add? || (e.Enqueue? && e.data != []) ==>
      e.sid in s.pool.accounts || e.sid in s.pool.removable || e.sid !in s.pool.pending
  }

  lemma StepKeepsOne(s: State, e: Event, sid: int)
    requires Inv(s) && Enabled(s, e) && e.Step? && Timely(s, e) && Live(After(s, e).pool, sid)
    ensures Awake(After(s, e).pool, sid) && Rested(After(s, e).pool, sid, After(s, e).polledAt)
  {
    var p := s.pool.(fired := false);
    SentAllKeeps(p, e.order, e.turns);
    var q := SentAll(p, e.order, e.turns);
    ReportedAllAt(Drained(q), e.fds, e.ready, sid);
    assert sid in s.pool.accounts;
    SentAllAt(p, e.order, e.turns, sid);
    assert Live(s.pool, sid);
    TurnFacts(s.pool.accounts[sid], e.turns[sid]);
    assert sid in e.fds <==> sid in ToSet(e.fds);
    if sid in e.fds && e.ready[sid].CanTake? {
      assert e.ready[sid].CanTake?;
    }
  }

  lemma Kept(s: State, e: Event)
    requires Inv(s) && Enabled(s, e) && Timely(s, e) && Unparked(s, e)
    ensures Inv(After(s, e))
  {
    AfterValidPool(s, e);
    var s' := After(s, e);
    forall sid {:trigger Live(s'.pool, sid)} | Live(s'.pool, sid)
      ensures Awake(s'.pool, sid) && Rested(s'.pool, sid, s'.polledAt)
    {
      if e.Step? {
        StepKeepsOne(s, e, sid);
      } else {
        assert sid in s.pool.accounts && !e.ApplyRemove? ==> Live(s.pool, sid);
        assert e.ApplyRemove? ==> Live(s.pool, sid);
      }
    }
  }

  // ---- Runs ----

  ghost predicate Legal(s: State, es: seq<Event>)
    decreases |es|
  {
    es == [] || (Enabled(s, es[0]) && Legal(After(s, es[0]), es[1..]))
  }

  ghost function Final(s: State, es: seq<Event>): State
    requires Legal(s, es)
    decreases |es|
  {
    if es == [] then s else Final(After(s, es[0]), es[1..])
  }

  /** Steps follow one another in time, and no socket is added while the poller is dropping it. */
  ghost predicate Careful(s: State, es: seq<Event>)
    requires Legal(s, es)
    decreases |es|
  {
    es == [] || (Timely(s, es[0]) && Unparked(s, es[0]) && Careful(After(s, es[0]), es[1..]))
  }

  const FRESH := Pool(map[], {}, {}, {}, false)

  lemma {:induction false} NoLostWakeUp(s: State, es: seq<Event>)
    requires Inv(s) && Legal(s, es) && Careful(s, es)
    ensures Inv(Final(s, es))
    decreases |es|
  {
    if es != [] {
      Kept(s, es[0]);
      NoLostWakeUp(After(s, es[0]), es[1..]);
    }
  }

  /** From the empty pool, whenever that one was polled. */
  lemma NoLostWakeUpFromStart(at: int, es: seq<Event>, sid: int)
    requires Legal(State(FRESH, at), es) && Careful(State(FRESH, at), es)
    requires Live(Final(State(FRESH, at), es).pool, sid)
    ensures Awake(Final(State(FRESH, at), es).pool, sid)
  {
    NoLostWakeUp(State(FRESH, at), es);
  }

  // ---- Both conditions are exact ----

  /** Adding a socket keeps the invariant exactly when the poller is not about to drop it. */
  lemma AddKeepsIff(s: State, sid: int, now: int, rate: nat, mode: Throttling)
    requires Inv(s)
    ensures Inv(After(s, Add(sid, now, rate, mode))) <==> Unparked(s, Add(sid, now, rate, mode))
  {
    var e := Add(sid, now, rate, mode);
    if Unparked(s, e) {
      Kept(s, e);
    } else {
      assert Live(After(s, e).pool, sid);
      assert !Awake(After(s, e).pool, sid);
    }
  }

  /** Neither writable nor watched. */
  ghost predicate Lost(p: Pool, sid: int) {
    sid in p.accounts && !p.accounts[sid].writable && sid !in p.registered
  }

  /** Two steps that far apart, with a socket that is ready in the first and refuses in the second. */
  function Gap(sid: int, b: byte, d: int, mode: Throttling): (es: seq<Event>) {
    [Enqueue(sid, [b], 0, DEFAULT_FRAME_SIZE, mode),
     Step([sid], map[sid := Turn(0, 0, 0, true, Again)], [sid], map[sid := CanTake(0)], false, 0),
     Step([sid], map[sid := Turn(d, d, d, true, Again)], [], map[], false, d)]
  }

  /** Five hundred milliseconds is the exact limit: with any wider gap the wake-up is lost. */
  lemma GapIff(sid: int, b: byte, d: nat, mode: Throttling)
    ensures Legal(State(FRESH, 0), Gap(sid, b, d, mode))
    ensures var p := Final(State(FRESH, 0), Gap(sid, b, d, mode)).pool;
      Live(p, sid) && !p.fired && if d < WRITE_DELAY then Awake(p, sid) else Lost(p, sid)
  {
    var es := Gap(sid, b, d, mode);
    var s0 := State(FRESH, 0);
    var s1 := After(s0, es[0]);
    GapFirst(s1, sid, es[1], b, mode);
    var s2 := After(s1, es[1]);
    GapSecond(s2, sid, es[2], d);
    var s3 := After(s2, es[2]);
    assert Legal(s3, es[3..]);
    assert es[2..][0] == es[2] && es[2..][1..] == es[3..];
    assert Legal(s2, es[2..]) && Final(s2, es[2..]) == s3;
    assert es[1..][0] == es[1] && es[1..][1..] == es[2..];
    assert Legal(s1, es[1..]) && Final(s1, es[1..]) == s3;
  }

  /** What the poller is left with after the first step of the gap: ready, and about to be dropped. */
  predicate Parked(p: Pool, sid: int) {
    && p.accounts.Keys == {sid} && p.removable == {} && p.registered == {sid} && p.pending == {sid}
    && var a := p.accounts[sid];
       && a.writable && a.writableAt == WRITE_DELAY && a.since == 0 && a.sent == 0
       && a.maxFrameSize == DEFAULT_FRAME_SIZE == a.rate && a.q.frame == [] && |a.q.messages| == 1 == |a.q.messages[0]|
  }

  lemma GapFirst(s: State, sid: int, e: Event, b: byte, mode: Throttling)
    requires s == After(State(FRESH, 0), Enqueue(sid, [b], 0, DEFAULT_FRAME_SIZE, mode))
    requires e == Step([sid], map[sid := Turn(0, 0, 0, true, Again)], [sid], map[sid := CanTake(0)], false, 0)
    ensures Enabled(s, e) && Parked(After(s, e).pool, sid) && After(s, e).polledAt == 0
    ensures ValidPool(After(s, e).pool)
  {
    var p := s.pool.(fired := false);
    assert SentAll(p, [sid], e.turns) == p;
    assert ToSet([sid]) == {sid};
    assert Enabled(s, e);
    AfterValidPool(s, e);
    assert ReportedAll(Drained(p), [sid], e.ready) == Reported(Drained(p), sid, CanTake(0));
  }

  lemma GapSecond(s: State, sid: int, e: Event, d: nat)
    requires ValidPool(s.pool) && Parked(s.pool, sid)
    requires e == Step([sid], map[sid := Turn(d, d, d, true, Again)], [], map[], false, d)
    ensures Enabled(s, e)
    ensures var p := After(s, e).pool; Live(p, sid) && !p.fired && if d < WRITE_DELAY then Awake(p, sid) else Lost(p, sid)
  {
    var p, t := s.pool.(fired := false), e.turns[sid];
    TurnedValid(p, sid, t);
    assert [sid][1..] == [] && ToSet([sid]) == {sid};
    assert SentAll(p, [sid], e.turns) == Turned(p, sid, t);
    WaitsLate(s.pool.accounts[sid], t);
    assert ToSet(e.fds) == {};
  }

  lemma WaitsLate(a: Account, t: Turn)
    requires ValidQueue(a.q) && a.q.frame == [] && |a.q.messages| == 1 == |a.q.messages[0]|
    requires a.writable && a.since == 0 && a.sent == 0 && a.maxFrameSize == DEFAULT_FRAME_SIZE == a.rate
    requires t.tuned >= 0 && t.found && t.res == Again
    ensures var (b, out) := SendTurn(a, t);
      !out.fired && !out.removes && out.waits == (t.now >= a.writableAt) && b.writable == !out.waits
  {
  }

  // ---- A lost wake-up stays lost ----

  lemma LostStays(s: State, e: Event, sid: int)
    requires Enabled(s, e) && Lost(s.pool, sid)
    ensures Lost(After(s, e).pool, sid) <==> !(e.ApplyRemove? && sid in s.pool.removable)
  {
    hide SentAll, ReportedAll, SendTurn, ValidQueue;
    if e.Step? {
      var p := s.pool.(fired := false);
      SentAllKeeps(p, e.order, e.turns);
      SentAllAt(p, e.order, e.turns, sid);
      TurnFacts(s.pool.accounts[sid], e.turns[sid]);
      var q := SentAll(p, e.order, e.turns);
      assert sid in e.fds <==> sid in ToSet(e.fds);
      ReportedAllAt(Drained(q), e.fds, e.ready, sid);
    }
  }

  /** The application removes the account at some point of the run. */
  ghost predicate Dropped(s: State, es: seq<Event>, sid: int)
    requires Legal(s, es)
    decreases |es|
  {
    es != [] && ((es[0].ApplyRemove? && sid in s.pool.removable) || Dropped(After(s, es[0]), es[1..], sid))
  }

  /** Nothing but removing the account ends it: no later step, message or second add wakes it. */
  lemma {:induction false} LostForever(s: State, es: seq<Event>, sid: int)
    requires Legal(s, es) && Lost(s.pool, sid) && !Dropped(s, es, sid)
    ensures Lost(Final(s, es).pool, sid)
    decreases |es|
  {
    if es != [] {
      LostStays(s, es[0], sid);
      LostForever(After(s, es[0]), es[1..], sid);
    }
  }

  // ---- A socket added while the poller drops it ----

  /** The next step, whatever it brings, loses the new account's wake-up. */
  lemma AddedIsLost(s: State, sid: int, now: int, rate: nat, mode: Throttling, e: Event)
    requires ValidPool(s.pool) && !Unparked(s, Add(sid, now, rate, mode))
    requires e.Step? && Enabled(After(s, Add(sid, now, rate, mode)), e)
    requires !After(After(s, Add(sid, now, rate, mode)), e).pool.fired
    ensures Lost(After(After(s, Add(sid, now, rate, mode)), e).pool, sid)
  {
    var s' := After(s, Add(sid, now, rate, mode));
    var p := s'.pool.(fired := false);
    SentAllKeeps(p, e.order, e.turns);
    SentAllAt(p, e.order, e.turns, sid);
    TurnFacts(s'.pool.accounts[sid], e.turns[sid]);
    var q := SentAll(p, e.order, e.turns);
    assert sid in e.fds <==> sid in ToSet(e.fds);
    ReportedAllAt(Drained(q), e.fds, e.ready, sid);
  }

  /** A step at time 0 in which the socket takes nothing. */
  function StepAt0(sid: int, fds: seq<int>, ready: map<int, Ready>): Event {
    Step([sid], map[sid := Turn(0, 0, 0, true, Again)], fds, ready, false, 0)
  }

  function Quiet(sid: int): Event {
    StepAt0(sid, [], map[])
  }

  function FirstAdd(sid: int, mode: Throttling): Event {
    Add(sid, 0, DEFAULT_FRAME_SIZE, mode)
  }

  /** Such an add happens: a socket is found ready, removed, and added again before the next poll. */
  function Readded(sid: int, mode: Throttling): seq<Event> {
    [FirstAdd(sid, mode), StepAt0(sid, [sid], map[sid := CanTake(0)]), RemoveLater(sid), ApplyRemove]
    + [FirstAdd(sid, mode), Quiet(sid)]
  }

  lemma ReaddedLoses(sid: int, mode: Throttling)
    ensures Legal(State(FRESH, 0), Readded(sid, mode))
    ensures Lost(Final(State(FRESH, 0), Readded(sid, mode)).pool, sid)
  {
    var s4 := State(Pool(map[], {}, {}, {sid}, false), 0);
    var last := [FirstAdd(sid, mode), Quiet(sid)];
    AddedBack(s4, sid, mode);
    hide Lost;
    var s0, a := State(FRESH, 0), NewAccount(0, DEFAULT_FRAME_SIZE, mode);
    var ready := StepAt0(sid, [sid], map[sid := CanTake(0)]);
    var s1 := After(s0, FirstAdd(sid, mode));
    assert s1.pool.accounts == map[sid := a] && s1.pool.registered == {sid};
    ReadyOnce(s1, sid, a, ready);
    var s2 := After(s1, ready);
    var s3 := After(s2, RemoveLater(sid));
    assert After(s3, ApplyRemove) == s4;
    hide After, Enabled, Legal, Final;
    var end := Final(s4, last);
    LegalCons(s3, ApplyRemove, last, end);
    LegalCons(s2, RemoveLater(sid), [ApplyRemove] + last, end);
    LegalCons(s1, ready, [RemoveLater(sid)] + ([ApplyRemove] + last), end);
    LegalCons(s0, FirstAdd(sid, mode), [ready] + ([RemoveLater(sid)] + ([ApplyRemove] + last)), end);
    assert Readded(sid, mode) == [FirstAdd(sid, mode)] + ([ready] + ([RemoveLater(sid)] + ([ApplyRemove] + last)));
  }

  lemma AddedBack(s: State, sid: int, mode: Throttling)
    requires s == State(Pool(map[], {}, {}, {sid}, false), 0)
    ensures Legal(s, [FirstAdd(sid, mode), Quiet(sid)])
    ensures Lost(Final(s, [FirstAdd(sid, mode), Quiet(sid)]).pool, sid)
  {
    var a, s' := NewAccount(0, DEFAULT_FRAME_SIZE, mode), After(s, FirstAdd(sid, mode));
    assert s' == State(Pool(map[sid := a], {}, {sid}, {sid}, false), 0);
    QuietRound(s'.pool, sid, map[sid := Turn(0, 0, 0, true, Again)]);
    assert ToSet([]) == {} && Enabled(s', Quiet(sid));
    AddedIsLost(s, sid, 0, DEFAULT_FRAME_SIZE, mode, Quiet(sid));
    var end := After(s', Quiet(sid));
    LegalCons(s', Quiet(sid), [], end);
    LegalCons(s, FirstAdd(sid, mode), [Quiet(sid)], end);
  }

  lemma ReadyOnce(s: State, sid: int, a: Account, e: Event)
    requires s == State(Pool(map[sid := a], {}, {sid}, {}, false), 0) && ValidQueue(a.q) && !a.writable
    requires e == Step([sid], map[sid := Turn(0, 0, 0, true, Again)], [sid], map[sid := CanTake(0)], false, 0)
    ensures Enabled(s, e)
    ensures After(s, e) == State(Pool(map[sid := WriterAccounts.Writable(a, 0)], {}, {sid}, {sid}, false), 0)
  {
    var p := s.pool;
    assert p.(fired := false) == p;
    QuietRound(p, sid, e.turns);
    assert Enabled(s, e);
    assert [sid][1..] == [] && p.accounts[sid] == a;
    assert ReportedAll(Drained(p), [sid], e.ready) == Reported(Drained(p), sid, CanTake(0));
    assert p.accounts[sid := WriterAccounts.Writable(a, 0)] == map[sid := WriterAccounts.Writable(a, 0)];
  }

  /** A round in which the only account is not writable changes nothing. */
  lemma QuietRound(p: Pool, sid: int, turns: map<int, Turn>)
    requires ValidPool(p) && p.accounts.Keys == {sid} == turns.Keys && !p.accounts[sid].writable && !p.fired
    ensures SentAll(p, [sid], turns) == p && ToSet([sid]) == {sid}
  {
    assert [sid][1..] == [] && p.accounts[sid := p.accounts[sid]] == p.accounts;
  }

  lemma LegalCons(s: State, e: Event, es: seq<Event>, end: State)
    requires Enabled(s, e) && Legal(After(s, e), es) && Final(After(s, e), es) == end
    ensures Legal(s, [e] + es) && Final(s, [e] + es) == end
  {
    assert ([e] + es)[1..] == es;
  }

  // ---- Checks that throw ----

  /** A round throws exactly when the turn of some account does. */
  lemma {:induction false} RoundFiresIff(p: Pool, order: seq<int>, turns: map<int, Turn>)
    requires ValidPool(p) && !p.fired && Distinct(order) && InTurns(order, turns)
    ensures SentAll(p, order, turns).fired <==>
      exists i :: 0 <= i < |order| && order[i] in p.accounts && SendTurn(p.accounts[order[i]], turns[order[i]]).1.fired
    decreases |order|
  {
    if order != [] {
      var p' := Turned(p, order[0], turns[order[0]]);
      TurnedValid(p, order[0], turns[order[0]]);
      if !p'.fired {
        RoundFiresIff(p', order[1..], turns);
        forall i | 1 <= i < |order|
          ensures order[i] in p'.accounts <==> order[i] in p.accounts
          ensures order[i] in p.accounts ==> p'.accounts[order[i]] == p.accounts[order[i]]
        {
        }
      }
    }
  }

  /** No account can make a check fail. */
  ghost predicate Calm(p: Pool) {
    && !p.fired
    && forall sid {:trigger p.accounts[sid]} :: sid in p.accounts ==>
         CalmAccount(p.accounts[sid])
  }

  ghost predicate CalmAccount(a: Account) {
    ValidQueue(a.q) && a.maxFrameSize < FRAME_SIZE_LIMIT && !Risky(a)
  }

  /** New accounts and new frame sizes are not risky, and send takes no more than it is offered. */
  ghost predicate Gentle(s: State, e: Event)
    requires ValidPool(s.pool)
  {
    match e
    case Add(sid, now, rate, mode) => !Risky(NewAccount(now, rate, mode))
    case Enqueue(sid, data, now, rate, mode) => !Risky(NewAccount(now, rate, mode))
    case SetFrameSize(sid, frameSize) =>
      frameSize < FRAME_SIZE_LIMIT
      && (sid in s.pool.accounts ==> !Risky(s.pool.accounts[sid].(maxFrameSize := frameSize)))
    case Step(_, turns, _, _, _, _) =>
      forall sid {:trigger turns[sid]} :: sid in s.pool.accounts && sid in turns ==>
        HonestSend(s.pool.accounts[sid], DoTurn(turns[sid]))
    case _ => true
  }

  ghost predicate GentleRun(s: State, es: seq<Event>)
    requires Legal(s, es)
    decreases |es|
  {
    es == [] || (Gentle(s, es[0]) && GentleRun(After(s, es[0]), es[1..]))
  }

  lemma StepIsCalm(s: State, e: Event)
    requires Enabled(s, e) && e.Step? && Calm(s.pool) && Gentle(s, e)
    ensures Calm(After(s, e).pool)
  {
    var p, q := s.pool, SentAll(s.pool, e.order, e.turns);
    assert p.(fired := false) == p;
    SentAllKeeps(p, e.order, e.turns);
    forall i | 0 <= i < |e.order| && e.order[i] in p.accounts
      ensures !SendTurn(p.accounts[e.order[i]], e.turns[e.order[i]]).1.fired
    {
      StepCalm(p.accounts[e.order[i]], DoTurn(e.turns[e.order[i]]));
    }
    RoundFiresIff(p, e.order, e.turns);
    var r := After(s, e).pool;
    hide Risky, SendTurn, Turned;
    forall sid {:trigger r.accounts[sid]} | sid in r.accounts
      ensures CalmAccount(r.accounts[sid])
    {
      ReportedAllAt(Drained(q), e.fds, e.ready, sid);
      SentAllAt(p, e.order, e.turns, sid);
      StepCalm(p.accounts[sid], DoTurn(e.turns[sid]));
    }
    ReportedAllAt(Drained(q), e.fds, e.ready, 0);
  }

  lemma KeptCalm(s: State, e: Event)
    requires Enabled(s, e) && Calm(s.pool) && Gentle(s, e)
    ensures Calm(After(s, e).pool)
  {
    if e.Step? {
      StepIsCalm(s, e);
    }
  }

  /** Over every gentle run no check throws, so that no account's turn is cut off by another's. */
  lemma {:induction false} NoThrow(s: State, es: seq<Event>)
    requires Legal(s, es) && Calm(s.pool) && GentleRun(s, es)
    ensures Calm(Final(s, es).pool)
    decreases |es|
  {
    if es != [] {
      KeptCalm(s, es[0]);
      NoThrow(After(s, es[0]), es[1..]);
    }
  }
}
