/** Which message numbers the blocks of the sending buffer carry, held or left behind
    (src/udt/newlib/buffer.cpp): what the walk over an expired message relies on. */
module UdtNumbers {
  import opened UdtPackets

  /** How many message numbers there are, used in turn. */
  const NUMBERS: nat := 0x1FFF_FFFE

  /** The number of message n, counted from 0. */
  function NoAt(n: nat): bv32 {
    if n == 0 then 1 else NextMsgNo(NoAt(n - 1))
  }

  lemma {:induction false} NoAtInRange(n: nat)
    ensures 0 < NoAt(n) < MAX_MSG_NO
  {
    if n > 0 {
      NoAtInRange(n - 1);
      NextMsgNoInRange(NoAt(n - 1));
    }
  }

  function Inc(x: bv32): bv32 {
    x + 1
  }

  function Twice(x: bv32): bv32 {
    x + x
  }

  /** d in 32 bits. */
  function Word(d: nat): bv32 {
    if d == 0 then 0 else Inc(Word(d - 1))
  }

  lemma TwiceInc(x: bv32)
    ensures Twice(0) == 0 && Inc(Inc(Twice(x))) == Twice(Inc(x))
  {
  }

  lemma {:induction false} WordDoubles(d: nat)
    ensures Word(2 * d) == Twice(Word(d))
  {
    hide Inc, Twice;
    TwiceInc(0);
    if d > 0 {
      WordDoubles(d - 1);
      assert Word(2 * d) == Inc(Word(2 * d - 1)) && Word(2 * d - 1) == Inc(Word(2 * (d - 1)));
      TwiceInc(Word(d - 1));
    }
  }

  /** Doubling does not overflow, with room to spare. */
  predicate Small(p: bv32) {
    p <= 0x1000_0000
  }

  /** n is 2 to the k, and p the same in 32 bits. */
  ghost predicate IsPower(n: nat, p: bv32, k: nat) {
    if k == 0 then n == 1 && p == 1
    else n % 2 == 0 && exists q :: p == Twice(q) && Small(q) && IsPower(n / 2, q, k - 1)
  }

  lemma Doubled(n: nat, p: bv32, k: nat)
    requires IsPower(n, p, k) && Small(p)
    ensures IsPower(2 * n, Twice(p), k + 1)
  {
    hide Twice, Small;
    assert 2 * n / 2 == n;
  }

  lemma SmallFour(p: bv32)
    requires p <= 0x0200_0000
    ensures Small(p) && Small(Twice(p)) && Small(Twice(Twice(p))) && Small(Twice(Twice(Twice(p))))
  {
  }

  lemma TimesSixteen(n: nat, p: bv32, k: nat)
    requires IsPower(n, p, k) && p <= 0x0200_0000
    ensures IsPower(16 * n, Twice(Twice(Twice(Twice(p)))), k + 4)
  {
    SmallFour(p);
    hide Twice, Small, IsPower;
    Doubled(n, p, k);
    Doubled(2 * n, Twice(p), k + 1);
    Doubled(4 * n, Twice(Twice(p)), k + 2);
    Doubled(8 * n, Twice(Twice(Twice(p))), k + 3);
  }

  lemma TwentyNineBits()
    ensures IsPower(0x2000_0000, 0x2000_0000, 29)
  {
    assert IsPower(1, 1, 0);
    hide IsPower;
    TimesSixteen(1, 1, 0);
    TimesSixteen(0x10, 0x10, 4);
    TimesSixteen(0x100, 0x100, 8);
    TimesSixteen(0x1000, 0x1000, 12);
    TimesSixteen(0x1_0000, 0x1_0000, 16);
    TimesSixteen(0x10_0000, 0x10_0000, 20);
    TimesSixteen(0x100_0000, 0x100_0000, 24);
    Doubled(0x1000_0000, 0x1000_0000, 28);
  }

  /** x lies below p, and is not 0 unless d is. */
  predicate Within(x: bv32, p: bv32, d: nat) {
    x < p && (d > 0 ==> x != 0)
  }

  lemma TwiceWithin(x: bv32, q: bv32, d: nat)
    requires Within(x, q, d) && Small(q)
    ensures Within(Twice(x), Twice(q), 2 * d) && Within(Inc(Twice(x)), Twice(q), 2 * d + 1)
  {
  }

  lemma ZeroWithin()
    ensures Within(0, 1, 0)
  {
  }

  lemma WordWithin(d: nat, q: bv32)
    requires Within(Word(d / 2), q, d / 2) && Small(q)
    ensures Within(Word(d), Twice(q), d)
  {
    hide Inc, Twice, Within, Small;
    var h := d / 2;
    WordDoubles(h);
    TwiceWithin(Word(h), q, h);
    if d != 2 * h {
      assert Word(d) == Inc(Word(2 * h));
    }
  }

  lemma {:induction false} WordBound(d: nat, n: nat, p: bv32, k: nat)
    requires IsPower(n, p, k) && d < n
    ensures Within(Word(d), p, d)
    decreases k
  {
    hide Inc, Twice, Within, Small;
    if k == 0 {
      ZeroWithin();
    } else {
      var q :| p == Twice(q) && Small(q) && IsPower(n / 2, q, k - 1);
      WordBound(d / 2, n / 2, q, k - 1);
      WordWithin(d, q);
    }
  }

  lemma WordInRange(d: nat)
    requires 0 < d < NUMBERS
    ensures 0 < Word(d) < 0x1FFF_FFFE
  {
    TwentyNineBits();
    WordBound(d, 0x2000_0000, 0x2000_0000, 29);
    WordBound(d + 2, 0x2000_0000, 0x2000_0000, 29);
    TwoMore(Word(d));
  }

  lemma WordBelow(d: nat)
    requires d < NUMBERS
    ensures Word(d) < 0x1FFF_FFFE
  {
    if d > 0 {
      WordInRange(d);
    }
  }

  lemma TwoMore(x: bv32)
    requires x < 0x2000_0000 && Inc(Inc(x)) < 0x2000_0000
    ensures x < 0x1FFF_FFFE
  {
  }

  function Sum(a: bv32, b: bv32): bv32 {
    a + b
  }

  function Wrapped(s: bv32): bv32 {
    if s < 0x1FFF_FFFF then s else s - 0x1FFF_FFFE
  }

  /** The number d places on. */
  function Ahead(no: bv32, d: bv32): bv32 {
    Wrapped(Sum(no, d))
  }

  lemma SumInc(a: bv32, b: bv32)
    ensures Sum(a, Inc(b)) == Inc(Sum(a, b)) && Sum(a, 0) == a
  {
  }

  lemma SumBound(a: bv32, b: bv32)
    requires 0 < a < 0x1FFF_FFFF && b < 0x1FFF_FFFE
    ensures 0 < Sum(a, b) < 0x3FFF_FFFC
  {
  }

  lemma WrappedInc(s: bv32)
    requires 0 < s < 0x3FFF_FFFC
    ensures Wrapped(Inc(s)) == if Wrapped(s) == 0x1FFF_FFFE then 1 else Inc(Wrapped(s))
  {
  }

  lemma AheadNext(no: bv32, d: bv32)
    requires 0 < no < 0x1FFF_FFFF && d < 0x1FFF_FFFE
    ensures NextMsgNo(Ahead(no, d)) == Ahead(no, Inc(d))
  {
    hide Sum, Wrapped, NextMsgNo, Inc;
    SumInc(no, d);
    SumBound(no, d);
    WrappedInc(Sum(no, d));
    NextIs(Ahead(no, d));
  }

  lemma NextIs(no: bv32)
    ensures NextMsgNo(no) == if no == 0x1FFF_FFFE then 1 else Inc(no)
  {
  }

  lemma AheadNone(no: bv32)
    ensures no < 0x1FFF_FFFF ==> Ahead(no, 0) == no
  {
  }

  lemma SumDiffers(a: bv32, b: bv32)
    ensures b != 0 ==> Sum(a, b) != a
    ensures b != 0x1FFF_FFFE ==> Sum(a, b) - 0x1FFF_FFFE != a
  {
  }

  lemma AheadDiffers(no: bv32, d: bv32)
    requires 0 < d < 0x1FFF_FFFE
    ensures Ahead(no, d) != no
  {
    hide Sum;
    SumDiffers(no, d);
  }

  lemma {:induction false} NoAtAhead(a: nat, d: nat)
    requires d < NUMBERS
    ensures NoAt(a + d) == Ahead(NoAt(a), Word(d))
  {
    NoAtInRange(a);
    AheadNone(NoAt(a));
    if d > 0 {
      NoAtAhead(a, d - 1);
      WordBelow(d - 1);
      hide Ahead, Inc, NextMsgNo;
      AheadNext(NoAt(a), Word(d - 1));
    }
  }

  /** A number comes again only when all the others have been used. */
  lemma NoAtDiffers(a: nat, b: nat)
    requires a < b < a + NUMBERS
    ensures NoAt(a) != NoAt(b)
  {
    NoAtInRange(a);
    NoAtAhead(a, b - a);
    WordInRange(b - a);
    hide Ahead, NoAt, Word;
    AheadDiffers(NoAt(a), Word(b - a));
  }

  /** The number in a block last written for the i-th message, counted from 1; 0 if never written. */
  function Numbering(i: nat): bv32 {
    if i == 0 then 0 else NoAt(i - 1)
  }

  /** When the blocks were written last, in the order of writing, that is from the spare block on:
      each holds the index of the message, of total so far; skipped of these had no packet. */
  ghost predicate Recent(ages: seq<nat>, held: nat, total: nat, skipped: nat) {
    && held < |ages|
    && (forall i :: 0 <= i < |ages| ==> ages[i] <= total)
    && (forall i :: 0 <= i < |ages| && ages[i] > 0 ==> total <= ages[i] + (|ages| - 1 - i) + skipped)
    && (forall i :: |ages| - held <= i < |ages| ==> ages[i] > 0)
    && (ages[0] > 0 ==> ages[0] < ages[|ages| - 1])
  }

  /** Where in the order of writing the i-th block of the ring stands. */
  function AgeAt(i: nat, held: nat, size: nat): nat
    requires i < size && held <= size
  {
    if i >= held then i - held else i + size - held
  }

  /** The numbers of the blocks, in ring order, are those of the messages last written to them. */
  ghost predicate Marked(nos: seq<bv32>, held: nat, ages: seq<nat>) {
    && |nos| == |ages| && held < |ages|
    && forall i :: 0 <= i < |nos| ==> nos[i] == Numbering(ages[AgeAt(i, held, |nos|)])
  }

  ghost predicate Numbered(nos: seq<bv32>, held: nat, ages: seq<nat>, total: nat, skipped: nat, next: bv32) {
    && Marked(nos, held, ages) && Recent(ages, held, total, skipped)
    && next == NoAt(total)
  }

  lemma NewNumbered(size: nat)
    requires size > 0
    ensures Numbered(seq(size, _ => 0), 0, seq(size, _ => 0), 0, 0, 1)
  {
  }

  /** The spare block never carries the number of the last message held, unless there are as many
      blocks, or messages without packets, as there are numbers. */
  lemma SpareDiffers(nos: seq<bv32>, held: nat, ages: seq<nat>, total: nat, skipped: nat, next: bv32)
    requires Numbered(nos, held, ages, total, skipped, next) && held > 0
    requires |nos| + skipped <= NUMBERS
    ensures nos[held] != nos[held - 1]
  {
    var n := |nos|;
    assert AgeAt(held, held, n) == 0 && AgeAt(held - 1, held, n) == n - 1;
    NoAtInRange(ages[n - 1] - 1);
    if ages[0] > 0 {
      NoAtDiffers(ages[0] - 1, ages[n - 1] - 1);
    }
  }

  /** Acknowledged blocks go from the front of the ring to its back. */
  lemma TurnedNumbered(nos: seq<bv32>, held: nat, k: nat, ages: seq<nat>, total: nat, skipped: nat, next: bv32)
    requires Numbered(nos, held, ages, total, skipped, next) && k <= held
    ensures Numbered(nos[k..] + nos[..k], held - k, ages, total, skipped, next)
  {
    var n, nos' := |nos|, nos[k..] + nos[..k];
    forall i | 0 <= i < n
      ensures nos'[i] == Numbering(ages[AgeAt(i, held - k, n)])
    {
      var j := if i + k < n then i + k else i + k - n;
      assert nos'[i] == nos[j] && AgeAt(j, held, n) == AgeAt(i, held - k, n);
    }
  }

  function Zeros(n: nat): seq<bv32> {
    seq(n, _ => 0)
  }

  function Unwritten(n: nat): seq<nat> {
    seq(n, _ => 0)
  }

  /** Blocks never written are put in behind the spare one. */
  function GrownNumbers(nos: seq<bv32>, k: nat, n: nat): seq<bv32>
    requires k < |nos|
  {
    nos[..k + 1] + Zeros(n) + nos[k + 1..]
  }

  function GrownAges(ages: seq<nat>, n: nat): seq<nat>
    requires ages != []
  {
    ages[..1] + Unwritten(n) + ages[1..]
  }

  lemma GrownNumbered(nos: seq<bv32>, held: nat, n: nat, ages: seq<nat>, total: nat, skipped: nat, next: bv32)
    requires Numbered(nos, held, ages, total, skipped, next)
    ensures Numbered(GrownNumbers(nos, held, n), held, GrownAges(ages, n), total, skipped, next)
  {
    var nos', ages' := GrownNumbers(nos, held, n), GrownAges(ages, n);
    forall i | 0 <= i < |nos'|
      ensures nos'[i] == Numbering(ages'[AgeAt(i, held, |nos'|)])
    {
      if i <= held {
        assert nos'[i] == nos[i];
      } else if i <= held + n {
        assert nos'[i] == 0 && ages'[i - held] == 0;
      } else {
        assert nos'[i] == nos[i - n] && ages'[i - held] == ages[i - held - n];
      }
    }
    forall j | 0 <= j < |ages'|
      ensures ages'[j] == if j == 0 then ages[0] else if j <= n then 0 else ages[j - n]
    {
    }
  }

  function WrittenAges(ages: seq<nat>, n: nat, total: nat): seq<nat>
    requires n <= |ages|
  {
    ages[n..] + seq(n, _ => total + 1)
  }

  /** A message is written to the n blocks from the spare one on. */
  lemma WrittenNumbered(nos: seq<bv32>, nos': seq<bv32>, held: nat, n: nat,
                        ages: seq<nat>, total: nat, skipped: nat, next: bv32)
    requires Numbered(nos, held, ages, total, skipped, next) && held + n < |nos| == |nos'|
    requires forall i :: 0 <= i < |nos| ==> nos'[i] == if held <= i < held + n then next else nos[i]
    ensures Numbered(nos', held + n, WrittenAges(ages, n, total), total + 1,
                     if n == 0 then skipped + 1 else skipped, NextMsgNo(next))
  {
    var ages' := WrittenAges(ages, n, total);
    forall i | 0 <= i < |nos'|
      ensures nos'[i] == Numbering(ages'[AgeAt(i, held + n, |nos'|)])
    {
      assert nos[i] == Numbering(ages[AgeAt(i, held, |nos|)]);
      if held <= i < held + n {
        assert ages'[AgeAt(i, held + n, |nos'|)] == total + 1;
      } else {
        assert ages'[AgeAt(i, held + n, |nos'|)] == ages[AgeAt(i, held, |nos|)];
      }
    }
    forall j | 0 <= j < |ages'|
      ensures ages'[j] == if j < |ages| - n then ages[j + n] else total + 1
    {
    }
  }

  /** From packet i on: the first packet that does not carry this message number. */
  function RunEnd(ps: seq<Packet>, no: bv32, i: nat): (e: nat)
    requires i <= |ps|
    decreases |ps| - i
  {
    if i < |ps| && MsgSeq(ps[i]) == no then RunEnd(ps, no, i + 1) else i
  }

  lemma {:induction false} RunEndIs(ps: seq<Packet>, no: bv32, i: nat, e: nat)
    requires i <= e <= |ps| && (e < |ps| ==> MsgSeq(ps[e]) != no)
    requires forall k :: i <= k < e ==> MsgSeq(ps[k]) == no
    ensures RunEnd(ps, no, i) == e
    decreases e - i
  {
    if i < e {
      RunEndIs(ps, no, i + 1, e);
    }
  }

  lemma {:induction false} RunEndFacts(ps: seq<Packet>, no: bv32, i: nat)
    requires i <= |ps|
    ensures var e := RunEnd(ps, no, i);
      && i <= e <= |ps| && (e < |ps| ==> MsgSeq(ps[e]) != no) && forall k :: i <= k < e ==> MsgSeq(ps[k]) == no
    decreases |ps| - i
  {
    if i < |ps| && MsgSeq(ps[i]) == no {
      RunEndFacts(ps, no, i + 1);
    }
  }
}
