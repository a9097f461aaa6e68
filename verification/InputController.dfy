/** Reassembly of frames per socket (include/pfs/netty/simple_input_controller.hpp). */
module InputControllers {
  import opened Prelude
  import opened Archives
  import opened Framing

  function RawOf(raw: map<int, seq<byte>>, sid: int): seq<byte> {
    if sid in raw then raw[sid] else []
  }

  /** What one chunk does: the raw bytes kept after it, and the payloads it completes. */
  function Feed(raw: map<int, seq<byte>>, sid: int, chunk: seq<byte>): (map<int, seq<byte>>, seq<seq<byte>>) {
    if chunk == [] then (raw, [])
    else
      var (ps, rest) := ParseAll(RawOf(raw, sid) + chunk);
      (raw[sid := rest], ps)
  }

  function Forget(raw: map<int, seq<byte>>, sid: int): map<int, seq<byte>> {
    map s | s in raw && s != sid :: raw[s]
  }

  lemma ParseTurn(s: seq<byte>, done: seq<seq<byte>>)
    ensures ParseOne(s) == None ==> done + ParseAll(s).0 == done && ParseAll(s).1 == s
    ensures ParseOne(s).Some? ==>
              var (payload, rest) := ParseOne(s).value;
              && |rest| < |s|
              && done + ParseAll(s).0 == (done + [payload]) + ParseAll(rest).0
              && ParseAll(s).1 == ParseAll(rest).1
  {
    if ParseOne(s).Some? {
      ParsedFirst(s);
      hide ParseAll, ParseOne;
      Regroup(done, [ParseOne(s).value.0], ParseAll(ParseOne(s).value.1).0);
    }
  }

  lemma ParsedFirst(s: seq<byte>)
    requires ParseOne(s).Some?
    ensures var (payload, rest) := ParseOne(s).value;
      && |rest| < |s| && ParseAll(s) == ([payload] + ParseAll(rest).0, ParseAll(rest).1)
  {
  }

  lemma SetTwice(raw: map<int, seq<byte>>, sid: int, s: seq<byte>, s': seq<byte>)
    ensures raw[sid := s][sid := s'] == raw[sid := s']
  {
  }

  class InputController {
    var accounts: map<int, Archive>
    ghost var raw: map<int, seq<byte>>

    ghost predicate Valid()
      reads this, accounts.Values
    {
      && raw.Keys == accounts.Keys
      && (forall sid {:trigger accounts[sid]} :: sid in accounts ==>
            accounts[sid].Valid() && accounts[sid].Contents() == raw[sid])
      && (forall a, b {:trigger accounts[a], accounts[b]} :: a in accounts && b in accounts && a != b ==>
            accounts[a] != accounts[b])
    }

    constructor ()
      ensures Valid() && raw == map[] && accounts == map[]
    {
      accounts, raw := map[], map[];
    }

    /** The account of a socket, with the chunk appended to its raw bytes. */
    method EnsureAccount(sid: int, chunk: seq<byte>) returns (acc: Archive)
      requires Valid()
      modifies this, accounts.Values
      ensures Valid() && sid in accounts && acc == accounts[sid]
      ensures raw == old(raw)[sid := RawOf(old(raw), sid) + chunk]
      ensures accounts == old(accounts)[sid := acc]
      ensures if sid in old(accounts) then acc == old(accounts)[sid] else fresh(acc)
      ensures fresh(accounts.Values - old(accounts.Values))
    {
      if sid in accounts {
        acc := accounts[sid];
      } else {
        acc := new Archive([]);
        accounts := accounts[sid := acc];
      }
      acc.Append(chunk);
      raw := raw[sid := RawOf(raw, sid) + chunk];
    }

    /** One turn of the parsing loop. */
    method NextFrame(sid: int, acc: Archive) returns (found: bool, payload: seq<byte>)
      requires Valid() && sid in accounts && acc == accounts[sid]
      modifies this`raw, acc
      ensures Valid() && (found <==> ParseOne(old(raw)[sid]).Some?)
      ensures !found ==> raw == old(raw)
      ensures found ==> ParseOne(old(raw)[sid]) == Some((payload, raw[sid])) && raw == old(raw)[sid := raw[sid]]
    {
      var ar := new Archive([]);
      found := Parse(ar, acc);
      payload := [];
      if found {
        payload := ar.MoveContainer();
      }
      raw := raw[sid := acc.Contents()];
    }

    /** The parsing loop. */
    method Drain(sid: int, acc: Archive) returns (ready: seq<seq<byte>>)
      requires Valid() && sid in accounts && acc == accounts[sid]
      modifies this`raw, acc
      ensures Valid() && ready == ParseAll(old(raw)[sid]).0
      ensures raw == old(raw)[sid := ParseAll(old(raw)[sid]).1]
    {
      ready := [];
      ghost var goal := ParseAll(raw[sid]);
      while true
        invariant Valid() && sid in accounts
        invariant raw == old(raw)[sid := raw[sid]]
        invariant ready + ParseAll(raw[sid]).0 == goal.0 && ParseAll(raw[sid]).1 == goal.1
        decreases |raw[sid]|
      {
        ParseTurn(raw[sid], ready);
        var found, payload := NextFrame(sid, acc);
        if !found {
          break;
        }
        ready := ready + [payload];
      }
    }

    /** Feeds one chunk; the result lists the calls of on_data_ready, in order. */
    method ProcessInput(sid: int, chunk: seq<byte>) returns (ready: seq<seq<byte>>)
      requires Valid()
      modifies this, accounts.Values
      ensures Valid() && fresh(accounts.Values - old(accounts.Values))
      ensures (raw, ready) == Feed(old(raw), sid, chunk)
    {
      if |chunk| == 0 {
        return [];
      }
      hide ParseAll, RawOf;
      ghost var was, s := raw, RawOf(raw, sid) + chunk;
      var acc := EnsureAccount(sid, chunk);
      ready := Drain(sid, acc);
      SetTwice(was, sid, s, ParseAll(s).1);
    }

    method Remove(sid: int)
      requires Valid()
      modifies this
      ensures Valid() && accounts.Values <= old(accounts.Values)
      ensures raw == Forget(old(raw), sid)
    {
      accounts := map s | s in accounts && s != sid :: accounts[s];
      raw := Forget(raw, sid);
    }
  }

  // ---- Whole runs ----

  datatype Event = Chunk(sid: int, data: seq<byte>) | Removed(sid: int)

  /** The raw bytes kept per socket after a run, as ProcessInput and Remove leave them. */
  function RawAfter(es: seq<Event>): map<int, seq<byte>>
    decreases |es|
  {
    if es == [] then map[]
    else
      var raw, e := RawAfter(es[..|es| - 1]), es[|es| - 1];
      match e
      case Chunk(sid, data) => Feed(raw, sid, data).0
      case Removed(sid) => Forget(raw, sid)
  }

  /** The payloads delivered for a socket since its last removal. */
  function ReadyFor(es: seq<Event>, sid: int): seq<seq<byte>>
    decreases |es|
  {
    if es == [] then []
    else
      var init, e := es[..|es| - 1], es[|es| - 1];
      if e.sid != sid then ReadyFor(init, sid)
      else match e
        case Chunk(_, data) => ReadyFor(init, sid) + Feed(RawAfter(init), sid, data).1
        case Removed(_) => []
  }

  /** The chunks of a socket since its last removal, joined. */
  function StreamFor(es: seq<Event>, sid: int): seq<byte>
    decreases |es|
  {
    if es == [] then []
    else
      var init, e := es[..|es| - 1], es[|es| - 1];
      if e.sid != sid then StreamFor(init, sid)
      else match e
        case Chunk(_, data) => StreamFor(init, sid) + data
        case Removed(_) => []
  }

  /** What is delivered for a socket, and what is kept, depends only on its joined chunks: not on
      how they were split, nor on what happened to other sockets in between. */
  lemma {:induction false} SplitInvariance(es: seq<Event>, sid: int)
    ensures ParseAll(StreamFor(es, sid)) == (ReadyFor(es, sid), RawOf(RawAfter(es), sid))
    decreases |es|
  {
    if es != [] {
      var init, e := es[..|es| - 1], es[|es| - 1];
      SplitInvariance(init, sid);
      if e.sid == sid && e.Chunk? {
        ParseSplit(StreamFor(init, sid), e.data);
        if e.data == [] {
          assert StreamFor(init, sid) + e.data == StreamFor(init, sid);
          assert ReadyFor(init, sid) + [] == ReadyFor(init, sid);
        }
      }
    }
  }

  /** The bytes kept for a socket never hold a complete frame. */
  lemma KeptIncomplete(es: seq<Event>, sid: int)
    ensures ParseOne(RawOf(RawAfter(es), sid)) == None
  {
    SplitInvariance(es, sid);
    RestIncomplete(StreamFor(es, sid));
  }
}
