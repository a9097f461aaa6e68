/** The sending buffer: a ring of blocks that grows in place (src/udt/newlib/buffer.cpp). */
module UdtSender {
  import opened Prelude
  import opened UdtPackets
  import opened UdtNumbers

  /** What the buffer holds: the unacknowledged packets, oldest first, how many of them
      have been handed out once, and the number of the next message. */
  datatype Sender = Sender(packets: seq<Packet>, sent: nat, nextMsgNo: bv32, mss: nat)

  ghost predicate ValidSender(s: Sender) {
    s.sent <= |s.packets| && s.mss > 0 && 0 < s.nextMsgNo < MAX_MSG_NO && Filled(s.packets)
  }

  function Enqueue(s: Sender, data: seq<byte>, order: bool): Sender
    requires ValidSender(s)
  {
    s.(packets := s.packets + Chop(data, s.mss, s.nextMsgNo, order), nextMsgNo := NextMsgNo(s.nextMsgNo))
  }

  function Acknowledge(s: Sender, offset: nat): Sender
    requires ValidSender(s) && offset <= s.sent
  {
    s.(packets := s.packets[offset..], sent := s.sent - offset)
  }

  /** The message of packet offset has expired: if its first transmission is under way, what is left
      of that is given up. */
  function SkipMessage(s: Sender, offset: nat): Sender
    requires offset < |s.packets|
  {
    var e := RunEnd(s.packets, MsgSeq(s.packets[offset]), offset + 1);
    s.(sent := if offset < s.sent < e then e else s.sent)
  }

  /** A packet held, with the time to live and the time of sending given with its message. */
  datatype Entry = Entry(packet: Packet, ttl: int, time: nat)

  function Plain(es: seq<Entry>): seq<Packet> {
    seq(|es|, i requires 0 <= i < |es| => es[i].packet)
  }

  function Stamped(ps: seq<Packet>, ttl: int, time: nat): seq<Entry> {
    seq(|ps|, i requires 0 <= i < |ps| => Entry(ps[i], ttl, time))
  }

  lemma PlainStamped(es: seq<Entry>, ps: seq<Packet>, ttl: int, time: nat)
    ensures Plain(es + Stamped(ps, ttl, time)) == Plain(es) + ps
    ensures |Stamped(ps, ttl, time)| == |ps|
  {
  }

  /** Clock readings are 64-bit microseconds and their difference wraps; ttl is in milliseconds. */
  predicate Expired(e: Entry, now: nat) {
    e.ttl >= 0 && (now - e.time) % 0x1_0000_0000_0000_0000 / 1000 > e.ttl
  }

  /** While the clock has not wrapped since: a packet with a ttl of t milliseconds is given up once t + 1
      of them have passed, and one with a negative ttl never. */
  lemma ExpiredIff(e: Entry, now: nat)
    requires e.time <= now < e.time + 0x1_0000_0000_0000_0000
    ensures Expired(e, now) <==> e.ttl >= 0 && now - e.time >= (e.ttl + 1) * 1000
  {
    var age := now - e.time;
    assert age % 0x1_0000_0000_0000_0000 == age;
  }

  /** One packet's worth of memory; `buf` and `pos` stand for the pointer m_pcData. */
  class Block {
    const buf: array<byte>
    const pos: nat
    var length: nat
    var msgNo: bv32
    var ttl: int
    var originTime: nat
    var next: Block

    constructor (buf: array<byte>, pos: nat)
      ensures this.buf == buf && this.pos == pos && msgNo == 0
    {
      this.buf := buf;
      this.pos := pos;
      this.length := 0;
      this.msgNo := 0;
      this.ttl := 0;
      this.originTime := 0;
      this.next := this;
    }

    ghost predicate Holds(e: Entry, mss: nat)
      reads this`length, this`msgNo, this`ttl, this`originTime, buf
    {
      && msgNo == e.packet.msgNo && length == |e.packet.data| <= mss
      && pos + length <= buf.Length && buf[pos..pos + length] == e.packet.data
      && ttl == e.ttl && originTime == e.time
    }

    function Number(): bv32
      reads this`msgNo
    {
      msgNo & 0x1FFF_FFFF
    }

    /** Copies one packet in; the rest of the memory piece keeps its bytes. */
    method Put(data: seq<byte>, word: bv32, ttl: int, time: nat, mss: nat)
      requires |data| <= mss && pos + mss <= buf.Length
      modifies this`length, this`msgNo, this`ttl, this`originTime, buf
      ensures Holds(Entry(Packet(word, data), ttl, time), mss)
      ensures forall k :: 0 <= k < buf.Length && (k < pos || pos + mss <= k) ==> buf[k] == old(buf[k])
    {
      forall k | 0 <= k < |data| {
        buf[pos + k] := data[k];
      }
      length := |data|;
      msgNo := word;
      originTime := time;
      this.ttl := ttl;
    }
  }

  /** A piece of physical memory, cut into `size` blocks. */
  class Buffer {
    const data: array<byte>
    const size: nat
    var next: Buffer?

    constructor (data: array<byte>, size: nat)
      ensures this.data == data && this.size == size && next == null
    {
      this.data := data;
      this.size := size;
      this.next := null;
    }
  }

  predicate Apart(a: Block, b: Block, mss: nat) {
    a != b && (a.buf == b.buf ==> a.pos + mss <= b.pos || b.pos + mss <= a.pos)
  }

  /** Distinct blocks own distinct, in-bounds stretches of memory. */
  ghost predicate Disjoint(ring: seq<Block>, mss: nat) {
    && (forall i :: 0 <= i < |ring| ==> ring[i].pos + mss <= ring[i].buf.Length)
    && (forall i, j {:trigger Apart(ring[i], ring[j], mss)} :: 0 <= i < j < |ring| ==> Apart(ring[i], ring[j], mss))
  }

  function Succ(i: nat, n: nat): nat {
    if i + 1 == n then 0 else i + 1
  }

  /** Following `next` from ring[0] visits the whole ring and comes back. */
  ghost predicate Linked(ring: seq<Block>)
    reads ring
  {
    forall i {:trigger ring[i].next} :: 0 <= i < |ring| ==> ring[i].next == ring[Succ(i, |ring|)]
  }

  ghost predicate Chained(chain: seq<Block>)
    reads chain
  {
    forall i {:trigger chain[i].next} :: 0 <= i < |chain| - 1 ==> chain[i].next == chain[i + 1]
  }

  ghost predicate BufferList(bufs: seq<Buffer>)
    reads bufs
  {
    && bufs != []
    && forall i {:trigger bufs[i].next} :: 0 <= i < |bufs| ==> bufs[i].next == if i + 1 == |bufs| then null else bufs[i + 1]
  }

  lemma BlockBounds(i: nat, j: nat, mss: nat)
    requires i < j
    ensures i * mss + mss <= j * mss
  {
    assert (i + 1) * mss <= j * mss;
    assert (i + 1) * mss == i * mss + mss;
  }

  /** Allocates memory for n blocks and the blocks themselves, in a row; the last one's
      `next` is not set yet. */
  method NewChain(n: nat, mss: nat)
    returns (data: array<byte>, head: Block, tail: Block, ghost chain: seq<Block>, ghost owned: set<object>)
    requires n > 0
    ensures fresh(owned) && data in owned
    ensures |chain| == n && (forall i :: 0 <= i < n ==> chain[i] in owned)
    ensures head == chain[0] && tail == chain[n - 1]
    ensures Chained(chain) && Disjoint(chain, mss)
    ensures forall i :: 0 <= i < n ==> fresh(chain[i]) && chain[i].buf == data && chain[i].Number() == 0
  {
    BlockBounds(0, n, mss);
    data := new byte[n * mss];
    head := new Block(data, 0);
    tail := head;
    chain := [head];
    var i := 1;
    while i < n
      invariant 1 <= i <= n && |chain| == i
      invariant head == chain[0] && tail == chain[i - 1]
      invariant forall k :: 0 <= k < i ==> fresh(chain[k]) && chain[k].buf == data && chain[k].pos == k * mss && chain[k].Number() == 0
      invariant forall j, k :: 0 <= j < k < i ==> chain[j] != chain[k]
      invariant Chained(chain)
    {
      var b := new Block(data, i * mss);
      tail.next := b;
      tail := b;
      chain := chain + [b];
      i := i + 1;
    }
    owned := {data} + set k | 0 <= k < n :: chain[k];
    forall k | 0 <= k < n
      ensures chain[k].pos + mss <= data.Length
    {
      BlockBounds(k, n, mss);
    }
    forall j, k | 0 <= j < k < n
      ensures Apart(chain[j], chain[k], mss)
    {
      BlockBounds(j, k, mss);
    }
  }

  ghost function NewRing(ring: seq<Block>, k: nat, chain: seq<Block>): seq<Block>
    requires k < |ring|
  {
    ring[..k + 1] + chain + ring[k + 1..]
  }

  lemma SpliceDisjoint(ring: seq<Block>, k: nat, chain: seq<Block>, mss: nat)
    requires k < |ring| && Disjoint(ring, mss) && Disjoint(chain, mss)
    requires forall i, j {:trigger Apart(ring[i], chain[j], mss)} :: 0 <= i < |ring| && 0 <= j < |chain| ==> Apart(ring[i], chain[j], mss)
    ensures Disjoint(NewRing(ring, k, chain), mss)
  {
    var r := NewRing(ring, k, chain);
    forall i, j | 0 <= i < j < |r|
      ensures Apart(r[i], r[j], mss)
    {
      var m := |chain|;
      if j <= k {
        assert Apart(ring[i], ring[j], mss);
      } else if j <= k + m {
        assert i <= k ==> Apart(ring[i], chain[j - k - 1], mss);
        assert i > k ==> Apart(chain[i - k - 1], chain[j - k - 1], mss);
      } else {
        assert i <= k ==> Apart(ring[i], ring[j - m], mss);
        assert k < i <= k + m ==> Apart(ring[j - m], chain[i - k - 1], mss);
        assert i > k + m ==> Apart(ring[i - m], ring[j - m], mss);
      }
    }
    forall i | 0 <= i < |r|
      ensures r[i].pos + mss <= r[i].buf.Length
    {
      assert r[i] == if i <= k then ring[i] else if i <= k + |chain| then chain[i - k - 1] else ring[i - |chain|];
    }
  }

  lemma AreDistinct(ring: seq<Block>, mss: nat)
    requires Disjoint(ring, mss)
    ensures forall i, j :: 0 <= i < j < |ring| ==> ring[i] != ring[j]
  {
    forall i, j | 0 <= i < j < |ring|
      ensures ring[i] != ring[j]
    {
      assert Apart(ring[i], ring[j], mss);
    }
  }

  lemma AreDistinctFrom(ring: seq<Block>, chain: seq<Block>, mss: nat)
    requires forall i, j {:trigger Apart(ring[i], chain[j], mss)} :: 0 <= i < |ring| && 0 <= j < |chain| ==> Apart(ring[i], chain[j], mss)
    ensures forall i, j :: 0 <= i < |ring| && 0 <= j < |chain| ==> ring[i] != chain[j]
  {
    forall i, j | 0 <= i < |ring| && 0 <= j < |chain|
      ensures ring[i] != chain[j]
    {
      assert Apart(ring[i], chain[j], mss);
    }
  }

  /** Links a chain into the ring right after ring[k]. */
  method Splice(last: Block, head: Block, tail: Block, mss: nat,
                ghost ring: seq<Block>, ghost k: nat, ghost chain: seq<Block>)
    requires k < |ring| && last == ring[k] && Linked(ring)
    requires chain != [] && head == chain[0] && tail == chain[|chain| - 1] && Chained(chain)
    requires Disjoint(ring, mss) && Disjoint(chain, mss)
    requires forall i, j {:trigger Apart(ring[i], chain[j], mss)} :: 0 <= i < |ring| && 0 <= j < |chain| ==> Apart(ring[i], chain[j], mss)
    modifies last`next, tail`next
    ensures Linked(NewRing(ring, k, chain))
    ensures Numbers(NewRing(ring, k, chain)) == old(Numbers(NewRing(ring, k, chain)))
  {
    AreDistinct(ring, mss);
    AreDistinct(chain, mss);
    AreDistinctFrom(ring, chain, mss);
    hide Disjoint, Apart;
    tail.next := last.next;
    last.next := head;
    ghost var r := NewRing(ring, k, chain);
    forall i | 0 <= i < |r|
      ensures r[i].next == r[Succ(i, |r|)]
    {
      var n := |chain|;
      if i < k {
        assert r[i] == ring[i] && r[i + 1] == ring[i + 1];
        assert old(ring[i].next) == ring[Succ(i, |ring|)];
      } else if i == k {
        assert r[i] == last && r[i + 1] == head;
      } else if i < k + n {
        assert r[i] == chain[i - k - 1] && r[i + 1] == chain[i - k];
        assert old(chain[i - k - 1].next) == chain[i - k];
      } else {
        var i' := i - n;
        assert r[i] == if i' == k then tail else ring[i'];
        assert old(ring[i'].next) == ring[Succ(i', |ring|)];
        assert r[Succ(i, |r|)] == ring[Succ(i', |ring|)];
      }
    }
  }

  /** Walks to the end of the buffer list and links nbuf there. */
  method AppendBuffer(buffer: Buffer, nbuf: Buffer, ghost bufs: seq<Buffer>)
    requires BufferList(bufs) && buffer == bufs[0]
    requires forall i, j :: 0 <= i < j < |bufs| ==> bufs[i] != bufs[j]
    requires nbuf.next == null && forall i :: 0 <= i < |bufs| ==> bufs[i] != nbuf
    modifies bufs[|bufs| - 1]
    ensures BufferList(bufs + [nbuf])
  {
    var p := buffer;
    ghost var k := 0;
    while p.next != null
      invariant 0 <= k < |bufs| && p == bufs[k]
      decreases |bufs| - k
    {
      assert bufs[k].next != null;
      p := p.next;
      k := k + 1;
    }
    p.next := nbuf;
  }

  /** The numbers in the blocks, whether held or left behind. */
  ghost function Numbers(ring: seq<Block>): seq<bv32>
    reads ring
  {
    seq(|ring|, i requires 0 <= i < |ring| reads ring => ring[i].Number())
  }

  /** The packets sit, in order, in the first blocks of the ring. */
  ghost predicate Stored(ring: seq<Block>, held: seq<Entry>, mss: nat)
    reads ring, set b | b in ring :: b.buf
  {
    && |held| <= |ring|
    && forall i {:trigger ring[i].Holds(held[i], mss)} :: 0 <= i < |held| ==> ring[i].Holds(held[i], mss)
  }

  ghost predicate Owns(repr: set<object>, ring: seq<Block>, bufs: seq<Buffer>) {
    && (forall i :: 0 <= i < |ring| ==> ring[i] in repr && ring[i].buf in repr)
    && (forall i :: 0 <= i < |bufs| ==> bufs[i] in repr)
    && (forall i, j :: 0 <= i < j < |bufs| ==> bufs[i] != bufs[j])
  }

  lemma NewRingFacts(ring: seq<Block>, k: nat, chain: seq<Block>, repr: set<object>, repr': set<object>,
                     bufs: seq<Buffer>, nbuf: Buffer)
    requires k < |ring| && Owns(repr, ring, bufs) && repr <= repr'
    requires forall i :: 0 <= i < |chain| ==> chain[i] in repr' && chain[i].buf in repr'
    requires nbuf in repr' && forall i :: 0 <= i < |bufs| ==> bufs[i] != nbuf
    ensures |NewRing(ring, k, chain)| == |ring| + |chain|
    ensures forall i :: 0 <= i <= k ==> NewRing(ring, k, chain)[i] == ring[i]
    ensures Owns(repr', NewRing(ring, k, chain), bufs + [nbuf])
  {
  }

  /** A new physical buffer at the end of the list, and a chain of blocks over it. */
  method NewUnit(buffer: Buffer, unitsize: nat, mss: nat, ghost bufs: seq<Buffer>)
    returns (head: Block, tail: Block, ghost chain: seq<Block>, nbuf: Buffer, ghost owned: set<object>)
    requires unitsize > 0 && BufferList(bufs) && buffer == bufs[0]
    requires forall i, j :: 0 <= i < j < |bufs| ==> bufs[i] != bufs[j]
    modifies bufs[|bufs| - 1]
    ensures fresh(owned) && fresh(nbuf) && BufferList(bufs + [nbuf])
    ensures |chain| == unitsize && head == chain[0] && tail == chain[unitsize - 1]
    ensures Chained(chain) && Disjoint(chain, mss)
    ensures forall i :: 0 <= i < unitsize ==>
              chain[i] in owned && fresh(chain[i]) && chain[i].buf in owned && fresh(chain[i].buf)
              && chain[i].Number() == 0
  {
    var data;
    data, head, tail, chain, owned := NewChain(unitsize, mss);
    nbuf := new Buffer(data, unitsize);
    assert Chained(chain) && Disjoint(chain, mss);
    AppendBuffer(buffer, nbuf, bufs);
  }

  lemma ApartFromNew(ring: seq<Block>, chain: seq<Block>, repr: set<object>, owned: set<object>, bufs: seq<Buffer>, mss: nat)
    requires Owns(repr, ring, bufs) && repr !! owned
    requires forall i :: 0 <= i < |chain| ==> chain[i] in owned && chain[i].buf in owned
    ensures forall i, j {:trigger Apart(ring[i], chain[j], mss)} :: 0 <= i < |ring| && 0 <= j < |chain| ==> Apart(ring[i], chain[j], mss)
  {
  }

  lemma NewRingNumbers(ring: seq<Block>, k: nat, chain: seq<Block>)
    requires k < |ring| && forall i :: 0 <= i < |chain| ==> chain[i].Number() == 0
    ensures Numbers(NewRing(ring, k, chain)) == GrownNumbers(Numbers(ring), k, |chain|)
  {
  }

  /** The allocation and linking part of increase(). */
  method Grow(buffer: Buffer, unitsize: nat, last: Block, mss: nat,
              ghost ring: seq<Block>, ghost held: seq<Entry>, ghost bufs: seq<Buffer>, ghost repr: set<object>)
    returns (ghost ring': seq<Block>, ghost bufs': seq<Buffer>, ghost repr': set<object>)
    requires unitsize > 0 && BufferList(bufs) && buffer == bufs[0]
    requires Owns(repr, ring, bufs) && Linked(ring) && Disjoint(ring, mss)
    requires |held| < |ring| && last == ring[|held|] && Stored(ring, held, mss)
    modifies last`next, bufs[|bufs| - 1]
    ensures |ring'| == |ring| + unitsize
    ensures forall i :: 0 <= i <= |held| ==> ring'[i] == ring[i]
    ensures bufs' != [] && bufs'[0] == buffer
    ensures Linked(ring') && Disjoint(ring', mss) && BufferList(bufs')
    ensures Stored(ring', held, mss)
    ensures Numbers(ring') == GrownNumbers(old(Numbers(ring)), |held|, unitsize)
    ensures repr <= repr' && fresh(repr' - repr) && Owns(repr', ring', bufs')
  {
    var head, tail, chain, nbuf, owned := NewUnit(buffer, unitsize, mss, bufs);
    assert Stored(ring, held, mss) && Numbers(ring) == old(Numbers(ring));
    NewRingNumbers(ring, |held|, chain);
    ApartFromNew(ring, chain, repr, owned, bufs, mss);
    hide Owns, BufferList, Disjoint, Chained, Apart, Numbers, NewRing, GrownNumbers;
    Splice(last, head, tail, mss, ring, |held|, chain);
    assert Stored(ring, held, mss);
    SpliceDisjoint(ring, |held|, chain, mss);
    bufs' := bufs + [nbuf];
    repr' := repr + owned + {nbuf};
    NewRingFacts(ring, |held|, chain, repr, repr', bufs, nbuf);
    ring' := NewRing(ring, |held|, chain);
  }

  lemma CursorsMeet(ring: seq<Block>, i: nat, j: nat, mss: nat)
    requires Disjoint(ring, mss) && i <= j < |ring| && ring[i] == ring[j]
    ensures i == j
  {
    assert i < j ==> Apart(ring[i], ring[j], mss);
  }

  /** Follows `next` n times. */
  method Advance(b: Block, n: nat, ghost ring: seq<Block>) returns (p: Block)
    requires n < |ring| && b == ring[0] && Linked(ring)
    ensures p == ring[n]
  {
    p := b;
    for i := 0 to n
      invariant p == ring[i]
    {
      assert p.next == ring[Succ(i, |ring|)];
      p := p.next;
    }
  }

  ghost function Rotate(ring: seq<Block>, k: nat): seq<Block>
    requires k <= |ring|
  {
    ring[k..] + ring[..k]
  }

  lemma RotateDisjoint(ring: seq<Block>, k: nat, mss: nat)
    requires k <= |ring| && Disjoint(ring, mss)
    ensures Disjoint(Rotate(ring, k), mss)
  {
    var r := Rotate(ring, k);
    var n := |ring|;
    forall i, j | 0 <= i < j < n
      ensures Apart(r[i], r[j], mss)
    {
      var i', j' := if i < n - k then i + k else i + k - n, if j < n - k then j + k else j + k - n;
      assert if i' < j' then Apart(ring[i'], ring[j'], mss) else Apart(ring[j'], ring[i'], mss);
    }
  }

  lemma RotateLinked(ring: seq<Block>, k: nat)
    requires k < |ring| && Linked(ring)
    ensures Linked(Rotate(ring, k))
  {
  }

  lemma RotateStored(ring: seq<Block>, k: nat, held: seq<Entry>, mss: nat)
    requires k <= |held| < |ring| && Stored(ring, held, mss)
    ensures Stored(Rotate(ring, k), held[k..], mss)
  {
  }

  /** The ring as seen from the block k places on. */
  lemma TurnRing(ring: seq<Block>, k: nat, held: seq<Entry>, repr: set<object>, bufs: seq<Buffer>, mss: nat)
    returns (r: seq<Block>)
    requires k <= |held| < |ring|
    requires Linked(ring) && Disjoint(ring, mss) && Stored(ring, held, mss) && Owns(repr, ring, bufs)
    ensures |r| == |ring| && forall i :: 0 <= i < |ring| - k ==> r[i] == ring[i + k]
    ensures Linked(r) && Disjoint(r, mss) && Stored(r, held[k..], mss) && Owns(repr, r, bufs)
    ensures Numbers(r) == Numbers(ring)[k..] + Numbers(ring)[..k]
  {
    r := Rotate(ring, k);
    RotateDisjoint(ring, k, mss);
    RotateLinked(ring, k);
    RotateStored(ring, k, held, mss);
    assert Numbers(r) == Numbers(ring)[k..] + Numbers(ring)[..k];
  }

  lemma TurnNumbered(ring: seq<Block>, k: nat, held: seq<Entry>, repr: set<object>, bufs: seq<Buffer>, mss: nat,
                     ages: seq<nat>, total: nat, skipped: nat, next: bv32)
    returns (r: seq<Block>)
    requires k <= |held| < |ring|
    requires Linked(ring) && Disjoint(ring, mss) && Stored(ring, held, mss) && Owns(repr, ring, bufs)
    requires Numbered(Numbers(ring), |held|, ages, total, skipped, next)
    ensures |r| == |ring| && forall i :: 0 <= i < |ring| - k ==> r[i] == ring[i + k]
    ensures Linked(r) && Disjoint(r, mss) && Stored(r, held[k..], mss) && Owns(repr, r, bufs)
    ensures Numbered(Numbers(r), |held| - k, ages, total, skipped, next)
  {
    r := TurnRing(ring, k, held, repr, bufs, mss);
    TurnedNumbered(Numbers(ring), |held|, k, ages, total, skipped, next);
  }

  lemma StoredMore(ring: seq<Block>, held: seq<Entry>, p: Entry, mss: nat)
    requires Stored(ring, held, mss) && |held| < |ring| && ring[|held|].Holds(p, mss)
    ensures Stored(ring, held + [p], mss)
  {
  }

  /** Writing to the block behind the stored packets disturbs none of them. */
  method PutNext(s: Block, data: seq<byte>, word: bv32, ttl: int, time: nat, mss: nat,
                 ghost ring: seq<Block>, ghost held: seq<Entry>)
    requires |held| < |ring| && s == ring[|held|] && |data| <= mss
    requires Linked(ring) && Disjoint(ring, mss) && Stored(ring, held, mss)
    modifies s`length, s`msgNo, s`ttl, s`originTime, s.buf
    ensures Linked(ring) && Stored(ring, held, mss) && s.Holds(Entry(Packet(word, data), ttl, time), mss)
  {
    s.Put(data, word, ttl, time, mss);
    forall i | 0 <= i < |held|
      ensures ring[i].Holds(held[i], mss)
    {
      assert Apart(ring[i], ring[|held|], mss);
      assert old(ring[i].Holds(held[i], mss));
      var b := ring[i];
      assert b.length == old(b.length);
      assert forall k :: b.pos <= k < b.pos + b.length ==> b.buf[k] == old(b.buf[k]);
      assert b.buf[b.pos..b.pos + b.length] == old(b.buf[b.pos..b.pos + b.length]);
    }
  }

  /** Copies one packet into the block behind the stored ones. */
  method StoreNext(s: Block, data: seq<byte>, word: bv32, ttl: int, time: nat, mss: nat,
                   ghost ring: seq<Block>, ghost held: seq<Entry>, ghost held': seq<Entry>)
    returns (s': Block)
    requires held' == held + [Entry(Packet(word, data), ttl, time)]
    requires |held| + 1 < |ring| && s == ring[|held|] && |data| <= mss
    requires Linked(ring) && Disjoint(ring, mss) && Stored(ring, held, mss)
    modifies s`length, s`msgNo, s`ttl, s`originTime, s.buf
    ensures s' == ring[|held| + 1]
    ensures Linked(ring) && Stored(ring, held', mss)
    ensures forall i :: |held| < i < |ring| ==> ring[i].Number() == old(ring[i].Number())
  {
    AreDistinct(ring, mss);
    PutNext(s, data, word, ttl, time, mss, ring, held);
    StoredMore(ring, held, Entry(Packet(word, data), ttl, time), mss);
    assert s.next == ring[Succ(|held|, |ring|)];
    s' := s.next;
  }

  /** The copying loop of addBuffer: n packets, written from block s on. */
  method Fill(data: seq<byte>, n: nat, mss: nat, no: bv32, ttl: int, order: bool, time: nat, last: Block,
              ghost ring: seq<Block>, ghost held: seq<Entry>, ghost bufs: seq<Buffer>, ghost repr: set<object>)
    returns (s: Block)
    requires mss > 0 && n == |Chop(data, mss, no, order)|
    requires |held| + n < |ring| && last == ring[|held|]
    requires Linked(ring) && Disjoint(ring, mss) && Stored(ring, held, mss)
    requires Owns(repr, ring, bufs) && BufferList(bufs)
    modifies repr
    ensures s == ring[|held| + n]
    ensures Linked(ring) && Stored(ring, held + Stamped(Chop(data, mss, no, order), ttl, time), mss) && BufferList(bufs)
    ensures forall i :: |held| + n <= i < |ring| ==> ring[i].Number() == old(ring[i].Number())
  {
    hide MsgWord, BufferList, Disjoint;
    ghost var all := Stamped(Chop(data, mss, no, order), ttl, time);
    s := last;
    var i, off := 0, 0;
    assert held + all[..0] == held;
    while i < n
      invariant i <= n && s == ring[|held| + i] && off == Offset(i, mss)
      invariant Linked(ring) && Stored(ring, held + all[..i], mss) && BufferList(bufs)
      invariant forall j :: |held| + i <= j < |ring| ==> ring[j].Number() == old(ring[j].Number())
    {
      ChopAt(data, mss, no, order, true, i);
      var pktlen := |data| - off;
      if pktlen > mss {
        pktlen := mss;
      }
      var word := MsgWord(no, order, i == 0, i == n - 1);
      var chunk := data[off..off + pktlen];
      assert all[i] == Entry(Packet(word, chunk), ttl, time);
      s := StoreNext(s, chunk, word, ttl, time, mss, ring, held + all[..i], held + all[..i + 1]);
      off := off + mss;
      i := i + 1;
    }
    assert all[..n] == all;
  }

  lemma StoredNumbers(ring: seq<Block>, held: seq<Entry>, mss: nat)
    requires Stored(ring, held, mss)
    ensures forall i :: 0 <= i < |held| ==> Numbers(ring)[i] == MsgSeq(held[i].packet)
  {
    forall i | 0 <= i < |held|
      ensures ring[i].Number() == MsgSeq(held[i].packet)
    {
      assert ring[i].Holds(held[i], mss);
    }
  }

  /** What Fill has done to the numbers: those of the message's blocks are its number. */
  lemma FilledNumbers(nos: seq<bv32>, ring: seq<Block>, held: seq<Entry>, ps: seq<Packet>,
                      ttl: int, time: nat, no: bv32, mss: nat)
    requires Stored(ring, held + Stamped(ps, ttl, time), mss) && |held| + |ps| < |ring| == |nos|
    requires forall i :: 0 <= i < |held| ==> nos[i] == MsgSeq(held[i].packet)
    requires forall i :: |held| + |ps| <= i < |ring| ==> nos[i] == ring[i].Number()
    requires forall k :: 0 <= k < |ps| ==> MsgSeq(ps[k]) == no
    ensures |Numbers(ring)| == |nos|
    ensures forall i :: 0 <= i < |nos| ==>
              Numbers(ring)[i] == if |held| <= i < |held| + |ps| then no else nos[i]
  {
    hide Block.Holds, MsgSeq, Block.Number;
    var all := held + Stamped(ps, ttl, time);
    StoredNumbers(ring, all, mss);
    assert forall i :: 0 <= i < |held| ==> all[i] == held[i];
    assert forall k :: 0 <= k < |ps| ==> all[|held| + k].packet == ps[k];
  }

  lemma FilledNumbered(nos: seq<bv32>, ring: seq<Block>, held: seq<Entry>, ps: seq<Packet>, ttl: int, time: nat, no: bv32,
                       mss: nat, ages: seq<nat>, total: nat, skipped: nat)
    requires Stored(ring, held + Stamped(ps, ttl, time), mss) && |held| + |ps| < |ring| == |nos| == |ages|
    requires forall i :: 0 <= i < |held| ==> nos[i] == MsgSeq(held[i].packet)
    requires forall i :: |held| + |ps| <= i < |ring| ==> nos[i] == ring[i].Number()
    requires forall k :: 0 <= k < |ps| ==> MsgSeq(ps[k]) == no
    requires Numbered(nos, |held|, ages, total, skipped, no)
    ensures Numbered(Numbers(ring), |held| + |ps|, WrittenAges(ages, |ps|, total), total + 1,
                     if |ps| == 0 then skipped + 1 else skipped, NextMsgNo(no))
  {
    hide *;
    FilledNumbers(nos, ring, held, ps, ttl, time, no, mss);
    WrittenNumbered(nos, Numbers(ring), |held|, |ps|, ages, total, skipped, no);
  }

  /** The allocation and linking part of increase(), with what it does to the numbers of the blocks. */
  method GrowNumbered(buffer: Buffer, unitsize: nat, last: Block, mss: nat,
                      ghost ring: seq<Block>, ghost held: seq<Entry>, ghost bufs: seq<Buffer>, ghost repr: set<object>,
                      ghost ages: seq<nat>, ghost total: nat, ghost skipped: nat, ghost next: bv32)
    returns (ghost ring': seq<Block>, ghost bufs': seq<Buffer>, ghost repr': set<object>, ghost ages': seq<nat>)
    requires unitsize > 0 && BufferList(bufs) && buffer == bufs[0]
    requires Owns(repr, ring, bufs) && Linked(ring) && Disjoint(ring, mss)
    requires |held| < |ring| && last == ring[|held|] && Stored(ring, held, mss)
    requires Numbered(Numbers(ring), |held|, ages, total, skipped, next)
    modifies last`next, bufs[|bufs| - 1]
    ensures |ring'| == |ring| + unitsize
    ensures forall i :: 0 <= i <= |held| ==> ring'[i] == ring[i]
    ensures bufs' != [] && bufs'[0] == buffer
    ensures Linked(ring') && Disjoint(ring', mss) && BufferList(bufs')
    ensures Stored(ring', held, mss)
    ensures Numbered(Numbers(ring'), |held|, ages', total, skipped, next)
    ensures repr <= repr' && fresh(repr' - repr) && Owns(repr', ring', bufs')
  {
    GrownNumbered(Numbers(ring), |held|, unitsize, ages, total, skipped, next);
    ages' := GrownAges(ages, unitsize);
    hide *;
    ring', bufs', repr' := Grow(buffer, unitsize, last, mss, ring, held, bufs, repr);
  }

  /** The copying loop, with what it does to the numbers of the blocks. */
  method FillNumbered(data: seq<byte>, n: nat, mss: nat, no: bv32, ttl: int, order: bool, time: nat, last: Block,
                      ghost ring: seq<Block>, ghost held: seq<Entry>, ghost bufs: seq<Buffer>, ghost repr: set<object>,
                      ghost ages: seq<nat>, ghost total: nat, ghost skipped: nat)
    returns (s: Block)
    requires mss > 0 && 0 < no < MAX_MSG_NO && n == |Chop(data, mss, no, order)|
    requires |held| + n < |ring| && last == ring[|held|]
    requires Linked(ring) && Disjoint(ring, mss) && Stored(ring, held, mss)
    requires Owns(repr, ring, bufs) && BufferList(bufs)
    requires Numbered(Numbers(ring), |held|, ages, total, skipped, no)
    modifies repr
    ensures s == ring[|held| + n]
    ensures Linked(ring) && Stored(ring, held + Stamped(Chop(data, mss, no, order), ttl, time), mss) && BufferList(bufs)
    ensures n == 0 <==> data == []
    ensures n <= |ages| && Numbered(Numbers(ring), |held| + n, WrittenAges(ages, n, total), total + 1,
                                    if n == 0 then skipped + 1 else skipped, NextMsgNo(no))
  {
    ghost var ps, nos := Chop(data, mss, no, order), Numbers(ring);
    ChopNumbers(data, mss, no, order);
    StoredNumbers(ring, held, mss);
    assert |ages| == |ring| == |nos|;
    hide Disjoint, Linked, Stored, BufferList, Chop, NextMsgNo, Owns, Numbered, Stamped, MsgSeq, Block.Number, WrittenAges;
    s := Fill(data, n, mss, no, ttl, order, time, last, ring, held, bufs, repr);
    FilledNumbered(nos, ring, held, ps, ttl, time, no, mss, ages, total, skipped);
  }

  class SndBuffer {
    const buffer: Buffer
    const mss: nat
    var firstBlock: Block
    var currBlock: Block
    var lastBlock: Block
    var nextMsgNo: bv32
    var size: nat
    var count: nat

    // The blocks in ring order from firstBlock, the physical buffers, the packets held,
    // and the distance from firstBlock to currBlock.
    ghost var ring: seq<Block>
    ghost var bufs: seq<Buffer>
    ghost var held: seq<Entry>
    ghost var sent: nat
    ghost var Repr: set<object>

    // Which message each block was last written for, from lastBlock round the ring; how many
    // messages there have been, and how many of them without a packet.
    ghost var ages: seq<nat>
    ghost var total: nat
    ghost var skipped: nat

    ghost predicate Valid()
      reads this, Repr
    {
      |held| == count && ValidWith(ring, firstBlock, lastBlock, held, sent, ages, total, skipped, nextMsgNo)
    }

    /** Valid() with these for the fields that addBuffer and ackData set in the end. */
    ghost predicate ValidWith(ring: seq<Block>, first: Block, last: Block, held: seq<Entry>, sent: nat,
                              ages: seq<nat>, total: nat, skipped: nat, next: bv32)
      reads this, Repr
    {
      && this !in Repr
      && Owns(Repr, ring, bufs)
      && Disjoint(ring, mss) && Linked(ring) && BufferList(bufs)
      && buffer == bufs[0] && buffer.size > 0 && mss > 0
      && |ring| == size
      && |held| < size && sent <= |held|
      && first == ring[0] && currBlock == ring[sent] && last == ring[|held|]
      && Stored(ring, held, mss) && Filled(Plain(held))
      && 0 < next < MAX_MSG_NO
      && Numbered(Numbers(ring), |held|, ages, total, skipped, next)
    }

    ghost function View(): (s: Sender)
      reads this
    {
      Sender(Plain(held), sent, nextMsgNo, mss)
    }

    constructor (size: nat, mss: nat)
      requires size > 0 && mss > 0
      ensures Valid() && fresh(Repr)
      ensures View() == Sender([], 0, 1, mss) && held == [] && this.size == size && skipped == 0
    {
      hide Disjoint, Numbered, Apart;
      var data, head, tail, chain, owned := NewChain(size, mss);
      var pb := new Buffer(data, size);
      AreDistinct(chain, mss);
      tail.next := head;
      assert Linked(chain);
      this.mss, this.size, this.count, this.nextMsgNo := mss, size, 0, 1;
      this.buffer := pb;
      firstBlock, currBlock, lastBlock := head, head, head;
      ring, bufs, held, sent := chain, [pb], [], 0;
      ages, total, skipped := Unwritten(size), 0, 0;
      Repr := owned + {pb};
      new;
      assert Linked(ring);
      NewNumbered(size);
      assert Numbers(ring) == Zeros(size);
    }

    /** Splices `buffer.size` fresh blocks in after lastBlock; nothing held moves. */
    method Increase()
      requires Valid()
      modifies this, Repr
      ensures Valid() && fresh(Repr - old(Repr))
      ensures View() == old(View()) && held == old(held) && skipped == old(skipped)
      ensures size == old(size) + buffer.size
    {
      hide Disjoint, Linked, Stored, Numbered, Plain, Filled, Numbers;
      var unitsize := buffer.size;
      ring, bufs, Repr, ages :=
        GrowNumbered(buffer, unitsize, lastBlock, mss, ring, held, bufs, Repr, ages, total, skipped, nextMsgNo);
      size := size + unitsize;
    }

    /** Grows the ring until n more blocks fit and one stays free. */
    method Reserve(n: nat)
      requires Valid()
      modifies this, Repr
      ensures Valid() && fresh(Repr - old(Repr))
      ensures View() == old(View()) && held == old(held) && skipped == old(skipped)
      ensures n + count < size
    {
      hide Numbered, Disjoint, Linked, Stored;
      while n + count >= size
        invariant Valid() && fresh(Repr - old(Repr))
        invariant View() == old(View()) && held == old(held) && skipped == old(skipped)
        decreases n + count - size
      {
        Increase();
      }
    }

    method AddBuffer(data: seq<byte>, ttl: int, order: bool, now: nat)
      requires Valid()
      modifies this, Repr
      ensures Valid() && fresh(Repr - old(Repr))
      ensures View() == Enqueue(old(View()), data, order)
      ensures held == old(held) + Stamped(Chop(data, mss, old(nextMsgNo), order), ttl, now)
      ensures skipped == if data == [] then old(skipped) + 1 else old(skipped)
    {
      var n := |data| / mss;
      if |data| % mss != 0 {
        n := n + 1;
      }
      ChopLength(data, mss, nextMsgNo, order, true);
      Reserve(n);
      Append(data, n, ttl, order, now);
    }

    /** The copying half of addBuffer, once there is room. */
    method Append(data: seq<byte>, n: nat, ttl: int, order: bool, now: nat)
      requires Valid()
      requires n == |Chop(data, mss, nextMsgNo, order)| && n + count < size
      modifies this, Repr
      ensures Valid() && Repr == old(Repr)
      ensures View() == Enqueue(old(View()), data, order)
      ensures held == old(held) + Stamped(Chop(data, mss, old(nextMsgNo), order), ttl, now)
      ensures skipped == if data == [] then old(skipped) + 1 else old(skipped)
    {
      hide Disjoint, Linked, Stored, BufferList, Chop, Filled, NextMsgNo, Owns;
      hide Numbered, Numbers, Stamped, Plain, WrittenAges;
      ghost var ps := Chop(data, mss, nextMsgNo, order);
      NextMsgNoInRange(nextMsgNo);
      ChopFilled(Plain(held), data, mss, nextMsgNo, order);
      PlainStamped(held, ps, ttl, now);
      var s := FillNumbered(data, n, mss, nextMsgNo, ttl, order, now, lastBlock,
                            ring, held, bufs, Repr, ages, total, skipped);
      ghost var held' := held + Stamped(ps, ttl, now);
      Commit(s, count + n, NextMsgNo(nextMsgNo), held', WrittenAges(ages, n, total), total + 1,
             if n == 0 then skipped + 1 else skipped);
    }

    /** What addBuffer does once its packets are copied. */
    method Commit(last: Block, n: nat, no: bv32,
                  ghost held': seq<Entry>, ghost ages': seq<nat>, ghost total': nat, ghost skipped': nat)
      requires n == |held'| && ValidWith(ring, firstBlock, last, held', sent, ages', total', skipped', no)
      modifies this`lastBlock, this`count, this`nextMsgNo, this`held, this`ages, this`total, this`skipped
      ensures Valid()
      ensures lastBlock == last && nextMsgNo == no && held == held' && skipped == skipped'
    {
      hide Disjoint, Linked, Stored, BufferList, Filled, Owns, Numbered, Plain, Numbers;
      held, ages, total, skipped := held', ages', total', skipped';
      lastBlock, count, nextMsgNo := last, n, no;
    }

    /** First transmission: hands out the block at currBlock and moves on; length 0 when there is none. */
    method ReadData() returns (readlen: nat, data: seq<byte>, msgNo: bv32)
      requires Valid()
      modifies this`currBlock, this`sent
      ensures Valid()
      ensures readlen == 0 <==> old(sent) == |held|
      ensures old(sent) == |held| ==> View() == old(View())
      ensures old(sent) < |held| ==>
                && held[old(sent)].packet == Packet(msgNo, data) && readlen == |data|
                && View() == old(View()).(sent := old(sent) + 1)
    {
      assert sent < |held| ==> Plain(held)[sent] == held[sent].packet && held[sent].packet.data != [];
      assert sent < |held| ==> ring[sent].Holds(held[sent], mss);
      assert ring[sent].next == ring[Succ(sent, size)];
      hide Disjoint, Linked, Stored, BufferList, Owns, Filled, Numbered, Numbers, Plain;
      if currBlock == lastBlock {
        CursorsMeet(ring, sent, count, mss);
        return 0, [], 0;
      }
      data := currBlock.buf[currBlock.pos..currBlock.pos + currBlock.length];
      readlen := currBlock.length;
      msgNo := currBlock.msgNo;
      currBlock := currBlock.next;
      sent := sent + 1;
    }

    /** Retransmission of the packet `offset` places after the acknowledgement point; -1 when its
        message has expired, and then the rest of the message is not transmitted any more. */
    method ReadDataAt(offset: nat, now: nat) returns (readlen: int, data: seq<byte>, msgNo: bv32, msgLen: nat)
      requires Valid()
      requires offset < |held|
      requires size + skipped <= NUMBERS
      modifies this`currBlock, this`sent
      ensures Valid()
      ensures !Expired(held[offset], now) ==>
                && held[offset].packet == Packet(msgNo, data) && readlen == |data|
                && View() == old(View())
      ensures Expired(held[offset], now) ==>
                && readlen == -1 && msgNo == MsgSeq(held[offset].packet)
                && msgLen == RunEnd(Plain(held), msgNo, offset + 1) - offset
                && View() == SkipMessage(old(View()), offset)
    {
      hide Numbered, Disjoint, BufferList, Owns, Filled;
      var p := Advance(firstBlock, offset, ring);
      assert ring[offset].Holds(held[offset], mss);
      if p.ttl >= 0 && (now - p.originTime) % 0x1_0000_0000_0000_0000 / 1000 > p.ttl {
        msgNo, msgLen := GiveUp(p, offset);
        return -1, [], msgNo, msgLen;
      }
      data := p.buf[p.pos..p.pos + p.length];
      readlen := p.length;
      msgNo := p.msgNo;
      msgLen := 0;
    }

    /** Gives up the message of the block at offset, whose packets reach up to e. */
    method GiveUp(block: Block, ghost offset: nat) returns (msgNo: bv32, msgLen: nat)
      requires Valid()
      requires offset < |held| && block == ring[offset]
      requires size + skipped <= NUMBERS
      modifies this`currBlock, this`sent
      ensures Valid()
      ensures msgNo == MsgSeq(held[offset].packet)
      ensures msgLen == RunEnd(Plain(held), msgNo, offset + 1) - offset
      ensures View() == SkipMessage(old(View()), offset)
    {
      ghost var e := ExpiredRun(offset);
      AreDistinct(ring, mss);
      msgNo := block.Number();
      hide Numbered, Disjoint, Stored, BufferList, Owns, Filled, RunEnd, Numbers, MsgSeq, Block.Number;
      assert block.next == ring[Succ(offset, size)];
      msgLen := Walk(block.next, msgNo, offset, e);
    }

    /** Where the walk over an expired message stops: at the latest at the spare block. */
    lemma ExpiredRun(offset: nat) returns (e: nat)
      requires Valid() && offset < |held| && size + skipped <= NUMBERS
      ensures ring[offset].Number() == MsgSeq(held[offset].packet)
      ensures e == RunEnd(Plain(held), MsgSeq(held[offset].packet), offset + 1) && offset < e <= count
      ensures forall j :: offset < j < e ==> ring[j].Number() == ring[offset].Number()
      ensures ring[e].Number() != ring[offset].Number()
    {
      var ps, nos := Plain(held), Numbers(ring);
      hide Numbered, Disjoint, Stored, BufferList, Owns, Filled, MsgSeq, Block.Number, Linked;
      StoredNumbers(ring, held, mss);
      SpareDiffers(nos, count, ages, total, skipped, nextMsgNo);
      RunEndFacts(ps, MsgSeq(held[offset].packet), offset + 1);
      e := RunEnd(ps, MsgSeq(held[offset].packet), offset + 1);
      assert forall j :: 0 <= j < count ==> nos[j] == MsgSeq(ps[j]);
      assert forall j :: 0 <= j <= count ==> ring[j].Number() == nos[j];
    }

    /** The walk over the rest of an expired message, which takes currBlock along. */
    method Walk(from: Block, msgNo: bv32, ghost offset: nat, ghost e: nat) returns (msgLen: nat)
      requires |ring| == size && Linked(ring) && forall i, j :: 0 <= i < j < size ==> ring[i] != ring[j]
      requires sent < size && currBlock == ring[sent]
      requires offset < e < size && from == ring[offset + 1]
      requires (forall j :: offset < j < e ==> ring[j].Number() == msgNo) && ring[e].Number() != msgNo
      modifies this`currBlock, this`sent
      ensures sent == if offset < old(sent) < e then e else old(sent)
      ensures currBlock == ring[sent] && msgLen == e - offset
    {
      msgLen := 1;
      var p, move := from, false;
      ghost var k := offset + 1;
      while msgNo == p.Number()
        invariant offset < k <= e && p == ring[k] && msgLen == k - offset
        invariant move == (offset < old(sent) < k)
        invariant sent == (if move then k else old(sent)) && currBlock == ring[sent]
        decreases e - k
      {
        if p == currBlock {
          move := true;
        }
        assert p.next == ring[Succ(k, size)];
        p := p.next;
        k := k + 1;
        if move {
          currBlock := p;
          sent := k;
        }
        msgLen := msgLen + 1;
      }
    }

    method AckData(offset: nat)
      requires Valid()
      requires offset <= sent
      modifies this
      ensures Valid() && Repr == old(Repr) && held == old(held)[offset..] && skipped == old(skipped)
      ensures View() == Acknowledge(old(View()), offset)
    {
      assert Plain(held[offset..]) == Plain(held)[offset..];
      assert Filled(Plain(held)[offset..]);
      hide Disjoint, Linked, Stored, BufferList, Owns, Numbered, Plain, Filled, Numbers;
      ghost var r := TurnNumbered(ring, offset, held, Repr, bufs, mss, ages, total, skipped, nextMsgNo);
      var p := Advance(firstBlock, offset, ring);
      assert Owns(Repr, r, bufs);
      Release(p, count - offset, r, held[offset..], sent - offset);
    }

    /** What ackData does once it has found the first block left. */
    method Release(first: Block, n: nat, ghost ring': seq<Block>, ghost held': seq<Entry>, ghost sent': nat)
      requires n == |held'| && ValidWith(ring', first, lastBlock, held', sent', ages, total, skipped, nextMsgNo)
      modifies this`firstBlock, this`count, this`ring, this`held, this`sent
      ensures Valid() && held == held' && sent == sent'
    {
      hide Disjoint, Linked, Stored, BufferList, Filled, Owns, Numbered, Plain, Numbers;
      firstBlock, count := first, n;
      ring, held, sent := ring', held', sent';
    }
  }
}
