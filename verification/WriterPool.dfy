/** The writer pool and the poller it derives from (include/pfs/netty/writer_pool.hpp,
    include/pfs/netty/writer_poller.hpp, src/posix/writer_poller.cpp). */
module WriterPools {
  import opened Prelude
  import opened Framing
  import opened WriterQueues
  import opened WriterAccounts

  datatype Pool = Pool(
    accounts: map<int, Account>,
    removable: set<int>,      // scheduled for removal from the pool
    registered: set<int>,     // watched by the poller's backend
    pending: set<int>,        // scheduled for removal from the poller
    fired: bool)              // an internal check failed in the last do_send

  /** What the backend reports for one descriptor. */
  datatype Ready = Quiet | Other | CanTake(now: int) | Broken

  ghost predicate ValidPool(p: Pool) {
    forall sid {:trigger p.accounts[sid]} :: sid in p.accounts ==> ValidQueue(p.accounts[sid].q)
  }

  function Ensured(p: Pool, sid: int, a: Account): Pool {
    if sid in p.accounts then p
    else p.(accounts := p.accounts[sid := a], registered := p.registered + {sid})
  }

  function Queued(p: Pool, sid: int, a: Account, data: seq<byte>): Pool {
    if data == [] then p
    else
      var p' := Ensured(p, sid, a);
      p'.(accounts := p'.accounts[sid := p'.accounts[sid].(q := Enqueued(p'.accounts[sid].q, data))])
  }

  function Resized(p: Pool, sid: int, frameSize: nat): Pool {
    if sid in p.accounts then p.(accounts := p.accounts[sid := p.accounts[sid].(maxFrameSize := frameSize)]) else p
  }

  function Removed(p: Pool): Pool {
    p.(accounts := p.accounts - p.removable, registered := p.registered - p.removable, removable := {})
  }

  /** The account sid becomes a, and the pool does what the outcome asks for. */
  function Merged(p: Pool, sid: int, a: Account, out: Outcome): Pool {
    p.(accounts := p.accounts[sid := a],
       removable := if out.removes then p.removable + {sid} else p.removable,
       registered := if out.waits then p.registered + {sid} else p.registered,
       fired := out.fired)
  }

  function Turned(p: Pool, sid: int, t: Turn): Pool
    requires ValidPool(p)
  {
    if sid !in p.accounts then p
    else
      var (a, out) := SendTurn(p.accounts[sid], t);
      Merged(p, sid, a, out)
  }

  lemma TurnedValid(p: Pool, sid: int, t: Turn)
    requires ValidPool(p)
    ensures ValidPool(Turned(p, sid, t))
  {
  }

  /** The loop of do_send over the accounts, in the order the container has them; a failed check ends it. */
  function SentAll(p: Pool, order: seq<int>, turns: map<int, Turn>): (r: Pool)
    requires ValidPool(p) && forall i :: 0 <= i < |order| ==> order[i] in turns
    ensures ValidPool(r)
    decreases |order|
  {
    if order == [] || p.fired then p
    else
      TurnedValid(p, order[0], turns[order[0]]);
      SentAll(Turned(p, order[0], turns[order[0]]), order[1..], turns)
  }

  lemma SentAllEnds(p: Pool, order: seq<int>, turns: map<int, Turn>)
    requires ValidPool(p) && forall i :: 0 <= i < |order| ==> order[i] in turns
    ensures order == [] || p.fired ==> SentAll(p, order, turns) == p
  {
  }

  lemma SentAllFrom(p: Pool, order: seq<int>, i: nat, turns: map<int, Turn>)
    requires ValidPool(p) && i < |order| && !p.fired && forall j :: 0 <= j < |order| ==> order[j] in turns
    ensures ValidPool(Turned(p, order[i], turns[order[i]]))
    ensures Turned(p, order[i], turns[order[i]]).accounts.Keys == p.accounts.Keys
    ensures SentAll(p, order[i..], turns) == SentAll(Turned(p, order[i], turns[order[i]]), order[i + 1..], turns)
  {
    TurnedValid(p, order[i], turns[order[i]]);
    hide SendTurn, ValidQueue;
    assert order[i..][1..] == order[i + 1..];
  }

  /** A round of sending adds no account, and registers only sockets that have one. */
  lemma {:induction false} SentAllKeeps(p: Pool, order: seq<int>, turns: map<int, Turn>)
    requires ValidPool(p) && forall i :: 0 <= i < |order| ==> order[i] in turns
    ensures SentAll(p, order, turns).accounts.Keys == p.accounts.Keys
    ensures SentAll(p, order, turns).registered <= p.registered + p.accounts.Keys
    ensures SentAll(p, order, turns).pending == p.pending
    decreases |order|
  {
    if order != [] && !p.fired {
      TurnedValid(p, order[0], turns[order[0]]);
      SentAllKeeps(Turned(p, order[0], turns[order[0]]), order[1..], turns);
    }
  }

  function Reported(p: Pool, fd: int, r: Ready): Pool {
    match r
    case Quiet => p
    case Other => p
    case CanTake(now) =>
      p.(accounts := if fd in p.accounts then p.accounts[fd := WriterAccounts.Writable(p.accounts[fd], now)] else p.accounts,
         pending := p.pending + {fd})
    case Broken => p.(removable := p.removable + {fd}, pending := p.pending + {fd})
  }

  function ReportedAll(p: Pool, fds: seq<int>, ready: map<int, Ready>): Pool
    requires forall i :: 0 <= i < |fds| ==> fds[i] in ready
    decreases |fds|
  {
    if fds == [] then p else ReportedAll(Reported(p, fds[0], ready[fds[0]]), fds[1..], ready)
  }

  function Drained(p: Pool): Pool {
    p.(registered := p.registered - p.pending, pending := {})
  }

  /** One step: a round of sending and then, unless a check threw, one poll that finds the descriptors fds. */
  function Stepped(p: Pool, order: seq<int>, turns: map<int, Turn>, fds: seq<int>, ready: map<int, Ready>, failed: bool): Pool
    requires ValidPool(p) && forall i :: 0 <= i < |order| ==> order[i] in turns
    requires forall i :: 0 <= i < |fds| ==> fds[i] in ready
  {
    var q := SentAll(p.(fired := false), order, turns);
    if q.fired then q
    else if failed then Drained(q)
    else ReportedAll(Drained(q), fds, ready)
  }

  function ToSet(s: seq<int>): set<int> {
    set x | x in s
  }

  predicate Distinct(s: seq<int>) {
    forall i, j :: 0 <= i < j < |s| ==> s[i] != s[j]
  }

  /** How many descriptors have something to report. */
  function Busy(fds: seq<int>, ready: map<int, Ready>): nat
    requires forall i :: 0 <= i < |fds| ==> fds[i] in ready
  {
    if fds == [] then 0 else (if ready[fds[0]].Quiet? then 0 else 1) + Busy(fds[1..], ready)
  }

  lemma ReportedFrom(p: Pool, fds: seq<int>, i: nat, ready: map<int, Ready>)
    requires i < |fds| && forall j :: 0 <= j < |fds| ==> fds[j] in ready
    ensures ReportedAll(p, fds[i..], ready) == ReportedAll(Reported(p, fds[i], ready[fds[i]]), fds[i + 1..], ready)
    ensures Busy(fds[i..], ready) == (if ready[fds[i]].Quiet? then 0 else 1) + Busy(fds[i + 1..], ready)
  {
  }

  lemma {:induction false} IdleReports(p: Pool, fds: seq<int>, ready: map<int, Ready>)
    requires forall i :: 0 <= i < |fds| ==> fds[i] in ready
    requires Busy(fds, ready) == 0
    ensures ReportedAll(p, fds, ready) == p
  {
    if fds != [] {
      IdleReports(p, fds[1..], ready);
    }
  }

  class WriterPool {
    var accounts: map<int, Account>
    var removable: seq<int>
    var sockets: seq<int>           // the backend's descriptors
    var pollRemovable: seq<int>     // the poller's own _removable
    const rate: nat                 // _default_rate_limit
    const mode: Throttling          // _default_throttling
    ghost var fired: bool

    ghost predicate Valid()
      reads this
    {
      ValidPool(View()) && Distinct(sockets)
    }

    ghost function View(): Pool
      reads this
    {
      Pool(accounts, ToSet(removable), ToSet(sockets), ToSet(pollRemovable), fired)
    }

    constructor (mode: Throttling, rate: nat)
      ensures Valid() && View() == Pool(map[], {}, {}, {}, false)
      ensures this.mode == mode && this.rate == rate
    {
      accounts, removable, sockets, pollRemovable, fired := map[], [], [], [], false;
      this.mode, this.rate := mode, rate;
    }

    method WaitForWrite(sid: int)
      requires Valid()
      modifies this`sockets
      ensures Valid() && View() == old(View()).(registered := old(View()).registered + {sid})
    {
      if sid in sockets {
        return;
      }
      sockets := sockets + [sid];
    }

    /** remove_socket of the backend. */
    method PollRemove(sid: int)
      requires Valid()
      modifies this`sockets
      ensures Valid() && View() == old(View()).(registered := old(View()).registered - {sid})
    {
      var i := 0;
      while i < |sockets|
        invariant 0 <= i <= |sockets| && sockets == old(sockets)
        invariant forall j :: 0 <= j < i ==> sockets[j] != sid
      {
        if sockets[i] == sid {
          ghost var was := sockets;
          sockets := sockets[..i] + sockets[i + 1..];
          forall x
            ensures x in sockets <==> x in was && x != sid
          {
            if x in was && x != sid {
              var j :| 0 <= j < |was| && was[j] == x;
              assert sockets[if j < i then j else j - 1] == x;
            }
          }
          return;
        }
        i := i + 1;
      }
    }

    method ApplyRemovable()
      requires Valid()
      modifies this`sockets, this`pollRemovable
      ensures Valid() && View() == Drained(old(View()))
    {
      for i := 0 to |pollRemovable|
        invariant Valid() && pollRemovable == old(pollRemovable)
        invariant ToSet(sockets) == ToSet(old(sockets)) - ToSet(pollRemovable[..i])
      {
        PollRemove(pollRemovable[i]);
        assert ToSet(pollRemovable[..i + 1]) == ToSet(pollRemovable[..i]) + {pollRemovable[i]};
      }
      assert pollRemovable[..|pollRemovable|] == pollRemovable;
      pollRemovable := [];
    }

    method RemoveLater(sid: int)
      requires Valid()
      modifies this`removable
      ensures Valid() && View() == old(View()).(removable := old(View()).removable + {sid})
    {
      removable := removable + [sid];
    }

    method ApplyRemove()
      requires Valid()
      modifies this`sockets, this`accounts, this`removable
      ensures Valid() && View() == Removed(old(View()))
    {
      for i := 0 to |removable|
        invariant Valid() && removable == old(removable)
        invariant ToSet(sockets) == ToSet(old(sockets)) - ToSet(removable[..i])
        invariant accounts == old(accounts) - ToSet(removable[..i])
      {
        PollRemove(removable[i]);
        accounts := accounts - {removable[i]};
        assert ToSet(removable[..i + 1]) == ToSet(removable[..i]) + {removable[i]};
      }
      assert removable[..|removable|] == removable;
      removable := [];
    }

    method EnsureAccount(sid: int, now: int)
      requires Valid()
      modifies this`accounts, this`sockets
      ensures Valid() && View() == Ensured(old(View()), sid, NewAccount(now, rate, mode))
      ensures sid in accounts
    {
      if sid !in accounts {
        accounts := accounts[sid := NewAccount(now, rate, mode)];
        WaitForWrite(sid);
      }
    }

    method Enqueue(sid: int, data: seq<byte>, now: int)
      requires Valid()
      modifies this`accounts, this`sockets
      ensures Valid() && View() == Queued(old(View()), sid, NewAccount(now, rate, mode), data)
    {
      if |data| == 0 {
        return;
      }
      EnsureAccount(sid, now);
      accounts := accounts[sid := accounts[sid].(q := Enqueued(accounts[sid].q, data))];
    }

    method SetFrameSize(sid: int, frameSize: nat)
      requires Valid()
      modifies this`accounts
      ensures Valid() && View() == Resized(old(View()), sid, frameSize)
    {
      if sid in accounts {
        accounts := accounts[sid := accounts[sid].(maxFrameSize := frameSize)];
      }
    }

    /** The can_write callback. */
    method CanWrite(sid: int, now: int)
      requires Valid()
      modifies this`accounts
      ensures Valid()
      ensures accounts == if sid in old(accounts)
                          then old(accounts)[sid := WriterAccounts.Writable(old(accounts)[sid], now)]
                          else old(accounts)
    {
      if sid in accounts {
        accounts := accounts[sid := accounts[sid].(writable := true, writableAt := now + WRITE_DELAY)];
      }
    }

    /** tune_frame_size, whichever of the two is installed. */
    method TuneFrameSize(sid: int, now: int, reset: int) returns (frameSize: nat)
      requires Valid() && sid in accounts
      modifies this`accounts
      ensures Valid() && accounts == old(accounts)[sid := Tune(old(accounts)[sid], now, reset).0]
      ensures frameSize == Tune(old(accounts)[sid], now, reset).1
    {
      var acc := accounts[sid];
      var elapsed := now - acc.since;
      if elapsed > 999 {
        accounts := accounts[sid := acc.(sent := 0, since := reset)];
        return if acc.mode.Unlimited? then acc.maxFrameSize else Min(acc.maxFrameSize, acc.rate);
      }
      if acc.mode.Unlimited? {
        return acc.maxFrameSize;
      }
      if acc.sent >= acc.rate {
        return 0;
      }
      frameSize := Min(acc.maxFrameSize, acc.rate - acc.sent);
      if frameSize < acc.maxFrameSize {
        frameSize := acc.maxFrameSize;
      }
    }

    /** The switch over what send returned; ok is false when an internal check throws. */
    method Answer(sid: int, res: SendResult) returns (ok: bool)
      requires Valid() && sid in accounts && accounts[sid].q.frame != [] && !fired
      modifies this`accounts, this`removable, this`sockets, this`fired
      ensures ok == !fired
      ensures View() == Merged(old(View()), sid, Answered(old(accounts)[sid], res).0, Answered(old(accounts)[sid], res).1)
      ensures Distinct(sockets)
    {
      ok := true;
      var acc := accounts[sid];
      match res {
        case Failure => RemoveLater(sid);
        case Network => RemoveLater(sid);
        case Again =>
          accounts := accounts[sid := acc.(writable := false)];
          WaitForWrite(sid);
        case Overflow =>
          accounts := accounts[sid := acc.(writable := false)];
          WaitForWrite(sid);
        case Good(n) =>
          if n > |acc.q.frame| {
            fired := true;
            ok := false;
          } else if n > 0 {
            accounts := accounts[sid := acc.(q := Shifted(acc.q, n), sent := acc.sent + n)];
          }
      }
      assert old(accounts)[sid := acc] == old(accounts);
    }

    /** The body of the loop of do_send; ok is false when an internal check throws. */
    method SendOne(sid: int, t: Turn) returns (ok: bool)
      requires Valid() && sid in accounts && !fired
      modifies this`accounts, this`removable, this`sockets, this`fired
      ensures Valid() && View() == Turned(old(View()), sid, t) && ok == !fired
    {
      hide Acquired, Tune, CanAcquire;
      TurnedValid(View(), sid, t);
      ok := true;
      if !accounts[sid].writable {
        return;
      }
      if t.now < accounts[sid].writableAt {
        return;
      }
      var frameSize := TuneFrameSize(sid, t.tuned, t.reset);
      if frameSize == 0 {
        return;
      }
      if !CanAcquire(accounts[sid].q, frameSize) {
        fired := true;
        return false;
      }
      AcquiredFits(accounts[sid].q, frameSize);
      accounts := accounts[sid := accounts[sid].(q := Acquired(accounts[sid].q, frameSize))];
      if accounts[sid].q.frame == [] {
        return;
      }
      if !t.found {
        RemoveLater(sid);
        return;
      }
      ok := Answer(sid, t.res);
    }

    /** Every account gets one turn, in the order of the container, unless a check throws. */
    method DoSend(order: seq<int>, turns: map<int, Turn>) returns (ok: bool)
      requires Valid() && Distinct(order) && ToSet(order) == accounts.Keys && turns.Keys == accounts.Keys
      modifies this`accounts, this`removable, this`sockets, this`fired
      ensures Valid() && ok == !fired
      ensures (forall i :: 0 <= i < |order| ==> order[i] in turns)
      ensures View() == SentAll(old(View()).(fired := false), order, turns)
    {
      hide SentAll, Turned, ValidQueue;
      assert forall i :: 0 <= i < |order| ==> order[i] in ToSet(order);
      ok, fired := true, false;
      var i := 0;
      assert order[0..] == order;
      while i < |order|
        invariant 0 <= i <= |order| && Valid() && ok == !fired && accounts.Keys == old(accounts.Keys)
        invariant SentAll(View(), order[i..], turns) == SentAll(old(View()).(fired := false), order, turns)
      {
        SentAllFrom(View(), order, i, turns);
        ok := SendOne(order[i], turns[order[i]]);
        i := i + 1;
        if !ok {
          break;
        }
      }
      SentAllEnds(View(), order[i..], turns);
    }

    /** The backend's poll: marks what is ready and counts it. */
    method BackendPoll(ready: map<int, Ready>) returns (n: nat)
      requires forall i :: 0 <= i < |sockets| ==> sockets[i] in ready
      ensures n == Busy(sockets, ready)
    {
      n := 0;
      for i := 0 to |sockets|
        invariant n + Busy(sockets[i..], ready) == Busy(sockets, ready)
      {
        ReportedFrom(View(), sockets, i, ready);
        if !ready[sockets[i]].Quiet? {
          n := n + 1;
        }
      }
    }

    /** What the poller does for one descriptor that has something to report. */
    method Report(fd: int, r: Ready)
      requires Valid()
      modifies this`accounts, this`removable, this`pollRemovable
      ensures Valid() && View() == Reported(old(View()), fd, r)
    {
      match r {
        case Quiet =>
        case Other =>
        case Broken =>
          RemoveLater(fd);
          pollRemovable := pollRemovable + [fd];
        case CanTake(now) =>
          CanWrite(fd, now);
          pollRemovable := pollRemovable + [fd];
      }
    }

    /** writer_poller::poll: drains the removals, asks the backend, and runs the callbacks of the
        ready descriptors, counting them down. */
    method Poll(ready: map<int, Ready>, failed: bool)
      requires Valid() && View().registered <= ready.Keys
      modifies this`accounts, this`removable, this`sockets, this`pollRemovable
      ensures Valid() && Distinct(sockets) && ToSet(sockets) == ToSet(old(sockets)) - ToSet(old(pollRemovable))
      ensures forall i :: 0 <= i < |sockets| ==> sockets[i] in ready
      ensures View() == if failed then Drained(old(View())) else ReportedAll(Drained(old(View())), sockets, ready)
    {
      ApplyRemovable();
      assert forall i :: 0 <= i < |sockets| ==> sockets[i] in View().registered;
      if failed {
        return;
      }
      var n := BackendPoll(ready);
      ghost var p, fds := View(), sockets;
      var i := 0;
      assert sockets[0..] == sockets;
      while i < |sockets|
        invariant 0 <= i <= |sockets| && sockets == fds && Valid() && n == Busy(sockets[i..], ready)
        invariant ReportedAll(View(), sockets[i..], ready) == ReportedAll(p, sockets, ready)
      {
        if n == 0 {
          IdleReports(View(), sockets[i..], ready);
          break;
        }
        var fd := sockets[i];
        ReportedFrom(View(), sockets, i, ready);
        i := i + 1;
        if !ready[fd].Quiet? {
          n := n - 1;
          Report(fd, ready[fd]);
        }
      }
    }

    /** One pass: send, then poll; a check that throws ends it before the poll. */
    method Step(order: seq<int>, turns: map<int, Turn>, ready: map<int, Ready>, failed: bool) returns (ok: bool)
      requires Valid() && Distinct(order) && ToSet(order) == accounts.Keys && turns.Keys == accounts.Keys
      requires View().registered + accounts.Keys <= ready.Keys
      modifies this
      ensures Valid() && ok == !fired
      ensures forall i :: 0 <= i < |order| ==> order[i] in turns
      ensures forall i :: 0 <= i < |sockets| ==> sockets[i] in ready
      ensures View() == Stepped(old(View()), order, turns, sockets, ready, failed)
      ensures Distinct(sockets)
      ensures ok ==> ToSet(sockets) == SentAll(old(View()).(fired := false), order, turns).registered - old(View()).pending
    {
      ok := DoSend(order, turns);
      SentAllKeeps(old(View()).(fired := false), order, turns);
      if ok {
        Poll(ready, failed);
      }
    }
  }
}
