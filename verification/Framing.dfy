/** The frame format of include/pfs/netty/simple_frame.hpp: a 16-bit big-endian payload length,
    then the payload. */
module Framing {
  import opened Prelude
  import opened Archives

  const HEADER_SIZE: nat := 2
  const LENGTH_LIMIT: nat := 0x1_0000

  function Header(n: nat): seq<byte>
    requires n < LENGTH_LIMIT
  {
    [(n / 0x100) as byte, (n % 0x100) as byte]
  }

  function Length(h: seq<byte>): nat
    requires |h| >= 2
  {
    h[0] as nat * 0x100 + h[1] as nat
  }

  function FrameOf(payload: seq<byte>): seq<byte>
    requires |payload| < LENGTH_LIMIT
  {
    Header(|payload|) + payload
  }

  /** How many bytes of an n-byte message pack puts into a frame; the length is cut to 16 bits. */
  function PayloadSize(n: nat, frameSize: nat): nat
    requires n > 0 && frameSize > HEADER_SIZE
  {
    (Min(n + HEADER_SIZE, frameSize) - HEADER_SIZE) % LENGTH_LIMIT
  }

  /** The first frame of a byte string, if it is complete, and what follows it. */
  function ParseOne(s: seq<byte>): Option<(seq<byte>, seq<byte>)> {
    if |s| < HEADER_SIZE || |s| < HEADER_SIZE + Length(s) then None
    else Some((s[HEADER_SIZE..HEADER_SIZE + Length(s)], s[HEADER_SIZE + Length(s)..]))
  }

  /** All complete frames of a byte string, in order, and the incomplete rest. */
  function ParseAll(s: seq<byte>): (seq<seq<byte>>, seq<byte>)
    decreases |s|
  {
    match ParseOne(s)
    case None => ([], s)
    case Some((payload, rest)) => ([payload] + ParseAll(rest).0, ParseAll(rest).1)
  }

  lemma ParseFrame(payload: seq<byte>, s: seq<byte>)
    requires |payload| < LENGTH_LIMIT
    ensures ParseOne(FrameOf(payload) + s) == Some((payload, s))
  {
  }

  /** A frame on the wire: the length of the payload, high byte first, and then the payload. */
  lemma FrameOnWire(payload: seq<byte>)
    requires |payload| < LENGTH_LIMIT
    ensures var f := FrameOf(payload);
      && |f| == 2 + |payload| && f[2..] == payload
      && f[0] as nat * 256 + f[1] as nat == |payload|
  {
  }

  /** The first complete frame of any bytes: there is one exactly when as many bytes follow the first two
      as these tell, and it is those bytes. */
  lemma ParseOneIff(s: seq<byte>)
    ensures ParseOne(s).Some? <==> |s| >= 2 && |s| >= 2 + (s[0] as nat * 256 + s[1] as nat)
    ensures ParseOne(s).Some? ==>
      var n := s[0] as nat * 256 + s[1] as nat;
      ParseOne(s) == Some((s[2..2 + n], s[2 + n..]))
  {
  }

  /** What is left over never holds a complete frame. */
  lemma {:induction false} RestIncomplete(s: seq<byte>)
    ensures ParseOne(ParseAll(s).1) == None
    decreases |s|
  {
    if ParseOne(s).Some? {
      RestIncomplete(ParseOne(s).value.1);
    }
  }

  lemma ParseOneExtends(a: seq<byte>, b: seq<byte>)
    requires ParseOne(a).Some?
    ensures ParseOne(a + b) == Some((ParseOne(a).value.0, ParseOne(a).value.1 + b))
  {
    var n := HEADER_SIZE + Length(a);
    assert (a + b)[0] == a[0] && (a + b)[1] == a[1];
    assert (a + b)[HEADER_SIZE..n] == a[HEADER_SIZE..n] && (a + b)[n..] == a[n..] + b;
  }

  /** Parsing a, and then the rest of it with b behind, is parsing a and b at once. */
  lemma {:induction false} ParseSplit(a: seq<byte>, b: seq<byte>)
    ensures var (ps, rest) := ParseAll(a);
            ParseAll(a + b) == (ps + ParseAll(rest + b).0, ParseAll(rest + b).1)
    decreases |a|
  {
    match ParseOne(a)
    case None =>
      assert [] + ParseAll(a + b).0 == ParseAll(a + b).0;
    case Some((payload, rest)) =>
      ParseOneExtends(a, b);
      ParseSplit(rest, b);
      var more := ParseAll(ParseAll(rest).1 + b).0;
      assert [payload] + (ParseAll(rest).0 + more) == ([payload] + ParseAll(rest).0) + more;
  }

  lemma FrameOfParsed(s: seq<byte>)
    requires ParseOne(s).Some?
    ensures var (payload, rest) := ParseOne(s).value;
            |payload| < LENGTH_LIMIT && s == FrameOf(payload) + rest
  {
  }

  /** Every byte parsed is accounted for: re-framing the payloads gives the input back. */
  lemma {:induction false} ParseAllInverse(s: seq<byte>)
    ensures Framable(ParseAll(s).0)
    ensures s == FrameAll(ParseAll(s).0) + ParseAll(s).1
    decreases |s|
  {
    match ParseOne(s)
    case None =>
    case Some((payload, rest)) =>
      ParseAllInverse(rest);
      FrameOfParsed(s);
      var ps := ParseAll(rest).0;
      assert ([payload] + ps)[1..] == ps;
      assert FrameOf(payload) + (FrameAll(ps) + ParseAll(rest).1) == (FrameOf(payload) + FrameAll(ps)) + ParseAll(rest).1;
  }

  lemma ParseFrameThen(payload: seq<byte>, s: seq<byte>)
    requires |payload| < LENGTH_LIMIT
    ensures ParseAll(FrameOf(payload) + s) == ([payload] + ParseAll(s).0, ParseAll(s).1)
  {
  }

  predicate Framable(ps: seq<seq<byte>>) {
    forall i :: 0 <= i < |ps| ==> |ps[i]| < LENGTH_LIMIT
  }

  function FrameAll(ps: seq<seq<byte>>): seq<byte>
    requires Framable(ps)
  {
    if ps == [] then [] else FrameOf(ps[0]) + FrameAll(ps[1..])
  }

  lemma {:induction false} ParseFrameAll(ps: seq<seq<byte>>, s: seq<byte>)
    requires Framable(ps)
    ensures ParseAll(FrameAll(ps) + s) == (ps + ParseAll(s).0, ParseAll(s).1)
  {
    if ps == [] {
      assert FrameAll(ps) + s == s && ps + ParseAll(s).0 == ParseAll(s).0;
    } else {
      var t := FrameAll(ps[1..]) + s;
      assert FrameAll(ps) + s == FrameOf(ps[0]) + t;
      ParseFrameThen(ps[0], t);
      ParseFrameAll(ps[1..], s);
      assert [ps[0]] + (ps[1..] + ParseAll(s).0) == ps + ParseAll(s).0;
    }
  }

  /** Moves the front of a message into a frame; false is the failed internal check. */
  method Pack(outp: Archive, inp: Archive, frameSize: nat) returns (ok: bool)
    requires outp.Valid() && inp.Valid() && outp != inp
    modifies outp, inp
    ensures outp.Valid() && inp.Valid()
    ensures ok <==> old(inp.Contents()) == [] || frameSize > HEADER_SIZE
    ensures !ok || old(inp.Contents()) == [] ==>
              outp.Contents() == old(outp.Contents()) && inp.Contents() == old(inp.Contents())
    ensures ok && old(inp.Contents()) != [] ==>
              var m := old(inp.Contents());
              var k := PayloadSize(|m|, frameSize);
              outp.Contents() == old(outp.Contents()) + FrameOf(m[..k]) && inp.Contents() == m[k..]
  {
    var size := inp.Size();
    if size == 0 {
      return true;
    }
    var fs := Min(size + HEADER_SIZE, frameSize);
    if fs <= HEADER_SIZE {
      return false;
    }
    var payloadSize := (fs - HEADER_SIZE) % LENGTH_LIMIT;
    var header := Header(payloadSize);
    outp.Append(header);
    var data := inp.Data();
    outp.Append(data[..payloadSize]);
    assert outp.Contents() == old(outp.Contents()) + (header + data[..payloadSize]);
    ok := inp.EraseFront(payloadSize);
  }

  /** Takes one complete frame off the front of inp, if there is one. */
  method Parse(outp: Archive, inp: Archive) returns (found: bool)
    requires outp.Valid() && inp.Valid() && outp != inp
    modifies outp, inp
    ensures outp.Valid() && inp.Valid()
    ensures found <==> ParseOne(old(inp.Contents())).Some?
    ensures !found ==> outp.Contents() == old(outp.Contents()) && inp.Contents() == old(inp.Contents())
    ensures found ==>
              var (payload, rest) := ParseOne(old(inp.Contents())).value;
              outp.Contents() == old(outp.Contents()) + payload && inp.Contents() == rest
  {
    var data := inp.Data();
    if |data| < HEADER_SIZE {
      return false;
    }
    var payloadSize := data[0] as nat * 0x100 + data[1] as nat;
    if |data| < HEADER_SIZE + payloadSize {
      return false;
    }
    outp.Append(data[HEADER_SIZE..HEADER_SIZE + payloadSize]);
    found := inp.EraseFront(HEADER_SIZE + payloadSize);
  }
}
