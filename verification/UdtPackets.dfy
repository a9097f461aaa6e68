/** Data packets of the UDT protocol and the cutting of user data into packets.
    The message number word follows draft-gg-udt, section 2: bits 31 and 30 mark
    the first and the last packet of a message, bit 29 asks for in-order delivery,
    and the low 29 bits number the message. */
module UdtPackets {
  import opened Prelude

  datatype Packet = Packet(msgNo: bv32, data: seq<byte>)

  const MAX_MSG_NO: bv32 := 0x1FFF_FFFF

  function Boundary(p: Packet): bv32 {
    p.msgNo >> 30
  }

  /** Boundary bits "10" or "11": the packet opens a message. */
  predicate Begins(p: Packet) {
    Boundary(p) > 1
  }

  /** Boundary bits "01" or "11": the packet closes a message. */
  predicate Ends(p: Packet) {
    Boundary(p) == 1 || Boundary(p) == 3
  }

  predicate InOrder(p: Packet) {
    (p.msgNo >> 29) & 1 == 1
  }

  function MsgSeq(p: Packet): bv32 {
    p.msgNo & 0x1FFF_FFFF
  }

  /** The word addBuffer builds: flag bits are or-ed in where they apply. */
  function MsgWord(no: bv32, order: bool, first: bool, last: bool): bv32 {
    var w := no | (if order then 0x2000_0000 else 0);
    var w' := if first then w | 0x8000_0000 else w;
    if last then w' | 0x4000_0000 else w'
  }

  function NextMsgNo(no: bv32): bv32 {
    if no + 1 == MAX_MSG_NO then 1 else no + 1
  }

  /** A message number never reaches the flag bits, so no field of the word disturbs another. */
  lemma MsgWordFields(no: bv32, order: bool, first: bool, last: bool, data: seq<byte>)
    requires 0 < no < MAX_MSG_NO
    ensures var p := Packet(MsgWord(no, order, first, last), data);
            (Begins(p) <==> first) && (Ends(p) <==> last) && (InOrder(p) <==> order) && MsgSeq(p) == no
  {
  }

  lemma NextMsgNoInRange(no: bv32)
    requires 0 < no < MAX_MSG_NO
    ensures 0 < NextMsgNo(no) < MAX_MSG_NO
  {
  }

  lemma SmallWord(no: bv32)
    requires no < 0x1FFF_FFFF
    ensures no >> 30 == 0 && (no >> 29) & 1 == 0
  {
  }

  /** The word is the bare number only for a packet from the middle of a message without order. */
  lemma BareWordIff(no: bv32, order: bool, first: bool, last: bool)
    requires 0 < no < MAX_MSG_NO
    ensures MsgWord(no, order, first, last) == no <==> !first && !last && !order
  {
    MsgWordFields(no, order, first, last, []);
    SmallWord(no);
    NoFlags(no);
    hide MsgWord;
  }

  lemma NoFlags(no: bv32)
    ensures MsgWord(no, false, false, false) == no
  {
  }

  /** Which bit is which on the wire. */
  lemma KnownWords()
    ensures MsgWord(1, false, true, false) == 0x8000_0001
    ensures MsgWord(1, false, false, true) == 0x4000_0001
    ensures MsgWord(1, true, false, false) == 0x2000_0001
    ensures MsgWord(0x1FFF_FFFE, true, true, true) == 0xFFFF_FFFE
  {
  }

  /** The bytes carried by a list of packets. */
  function Payload(ps: seq<Packet>): seq<byte> {
    if ps == [] then [] else ps[0].data + Payload(ps[1..])
  }

  lemma {:induction false} PayloadConcat(a: seq<Packet>, b: seq<Packet>)
    ensures Payload(a + b) == Payload(a) + Payload(b)
  {
    if a == [] {
      assert a + b == b;
    } else {
      PayloadConcat(a[1..], b);
      assert (a + b)[1..] == a[1..] + b;
      assert a[0].data + (Payload(a[1..]) + Payload(b)) == Payload(a) + Payload(b);
    }
  }

  /** Cuts what is left of a message into packets of at most mss bytes. */
  function ChopRest(data: seq<byte>, mss: nat, no: bv32, order: bool, first: bool): seq<Packet>
    requires mss > 0
  {
    if data == [] then []
    else
      var n := Min(|data|, mss);
      [Packet(MsgWord(no, order, first, n == |data|), data[..n])] + ChopRest(data[n..], mss, no, order, false)
  }

  function Chop(data: seq<byte>, mss: nat, no: bv32, order: bool): seq<Packet>
    requires mss > 0
  {
    ChopRest(data, mss, no, order, true)
  }

  /** One complete message: opened only by its first packet, closed only by its last. */
  ghost predicate IsMessage(ps: seq<Packet>) {
    && ps != []
    && (forall k :: 0 <= k < |ps| ==> (Begins(ps[k]) <==> k == 0))
    && (forall k :: 0 <= k < |ps| ==> (Ends(ps[k]) <==> k == |ps| - 1))
  }

  lemma {:induction false} ChopRestShape(data: seq<byte>, mss: nat, no: bv32, order: bool, first: bool)
    requires mss > 0 && data != [] && 0 < no < MAX_MSG_NO
    ensures var ps := ChopRest(data, mss, no, order, first);
            && ps != []
            && Payload(ps) == data
            && (forall k :: 0 <= k < |ps| ==> (Begins(ps[k]) <==> first && k == 0))
            && (forall k :: 0 <= k < |ps| ==> (Ends(ps[k]) <==> k == |ps| - 1))
            && (forall k :: 0 <= k < |ps| ==> 0 < |ps[k].data| <= mss && MsgSeq(ps[k]) == no && (InOrder(ps[k]) <==> order))
    decreases |data|
  {
    hide MsgWord, Begins, Ends, InOrder, MsgSeq;
    var n := Min(|data|, mss);
    var ps := ChopRest(data, mss, no, order, first);
    var rest := ChopRest(data[n..], mss, no, order, false);
    MsgWordFields(no, order, first, n == |data|, data[..n]);
    assert ps[1..] == rest;
    assert data == data[..n] + data[n..];
    if n < |data| {
      ChopRestShape(data[n..], mss, no, order, false);
      forall k | 1 <= k < |ps|
        ensures ps[k] == rest[k - 1]
      {
      }
    }
  }

  /** Cutting loses nothing and marks exactly one complete message. */
  lemma ChopIsMessage(data: seq<byte>, mss: nat, no: bv32, order: bool)
    requires mss > 0 && data != [] && 0 < no < MAX_MSG_NO
    ensures var ps := Chop(data, mss, no, order);
            && IsMessage(ps)
            && Payload(ps) == data
            && (forall k :: 0 <= k < |ps| ==> 0 < |ps[k].data| <= mss && MsgSeq(ps[k]) == no && (InOrder(ps[k]) <==> order))
  {
    ChopRestShape(data, mss, no, order, true);
  }

  /** Where packet i of a message starts: i * mss. */
  function Offset(i: nat, mss: nat): nat {
    if i == 0 then 0 else Offset(i - 1, mss) + mss
  }

  /** No packet is empty. */
  ghost predicate Filled(ps: seq<Packet>) {
    forall k :: 0 <= k < |ps| ==> ps[k].data != []
  }

  /** A message leaves no empty packet behind those held. */
  lemma ChopFilled(ps: seq<Packet>, data: seq<byte>, mss: nat, no: bv32, order: bool)
    requires mss > 0 && 0 < no < MAX_MSG_NO && Filled(ps)
    ensures Filled(ps + Chop(data, mss, no, order))
  {
    if data != [] {
      ChopIsMessage(data, mss, no, order);
    }
  }

  lemma ChopNumbers(data: seq<byte>, mss: nat, no: bv32, order: bool)
    requires mss > 0 && 0 < no < MAX_MSG_NO
    ensures forall k :: 0 <= k < |Chop(data, mss, no, order)| ==> MsgSeq(Chop(data, mss, no, order)[k]) == no
    ensures |Chop(data, mss, no, order)| == 0 <==> data == []
  {
    if data != [] {
      ChopIsMessage(data, mss, no, order);
    }
  }

  lemma SliceOfRest(data: seq<byte>, n: nat, lo: nat, hi: nat)
    requires n <= |data| && lo <= hi <= |data| - n
    ensures data[n..][lo..hi] == data[lo + n..hi + n]
  {
  }

  lemma ChopFirst(data: seq<byte>, mss: nat, no: bv32, order: bool, first: bool)
    requires mss > 0
    ensures var n, ps := Min(|data|, mss), ChopRest(data, mss, no, order, first);
      && (data == [] <==> ps == [])
      && (data != [] ==>
            ps == [Packet(MsgWord(no, order, first, n == |data|), data[..n])] + ChopRest(data[n..], mss, no, order, false))
      && (|data| <= mss <==> ChopRest(data[n..], mss, no, order, false) == [])
  {
  }

  /** The k-th packet in closed form: which bytes, and which flag bits. */
  lemma {:induction false} ChopAt(data: seq<byte>, mss: nat, no: bv32, order: bool, first: bool, k: nat)
    requires mss > 0 && k < |ChopRest(data, mss, no, order, first)|
    ensures var ps := ChopRest(data, mss, no, order, first);
            && Offset(k, mss) < |data|
            && ps[k] == Packet(MsgWord(no, order, first && k == 0, k == |ps| - 1),
                               data[Offset(k, mss)..Min(Offset(k, mss) + mss, |data|)])
    decreases k
  {
    hide MsgWord, ChopRest;
    ChopFirst(data, mss, no, order, first);
    if k > 0 {
      assert data[Min(|data|, mss)..] != [];
      hide Offset;
      ChopAt(data[mss..], mss, no, order, false, k - 1);
      OffsetNext(k, mss);
      var lo := Offset(k - 1, mss);
      SliceOfRest(data, mss, lo, Min(lo + mss, |data| - mss));
    }
  }

  lemma OffsetNext(k: nat, mss: nat)
    requires k > 0
    ensures Offset(k, mss) == Offset(k - 1, mss) + mss
  {
  }

  /** The number of packets is the message length divided by mss, rounded up. */
  lemma {:induction false} ChopLength(data: seq<byte>, mss: nat, no: bv32, order: bool, first: bool)
    requires mss > 0
    ensures |ChopRest(data, mss, no, order, first)| == if |data| % mss != 0 then |data| / mss + 1 else |data| / mss
    decreases |data|
  {
    if |data| > mss {
      ChopLength(data[mss..], mss, no, order, false);
      DivStep(|data|, mss);
    } else {
      DivSmall(|data|, mss);
      assert data != [] ==> data[|data|..] == [];
    }
  }

  lemma DivStep(n: nat, d: nat)
    requires n >= d > 0
    ensures n / d == (n - d) / d + 1 && n % d == (n - d) % d
  {
    var q, r := (n - d) / d, (n - d) % d;
    MulStep(q, d);
    DivUnique(n, d, q + 1, r);
  }

  lemma DivSmall(n: nat, d: nat)
    requires n <= d && d > 0
    ensures n < d ==> n / d == 0 && n % d == n
    ensures n == d ==> n / d == 1 && n % d == 0
  {
  }
}
