/** Lenient conversion in demo/shared/linenoise-ng/ConvertUTF.cpp, for any input: what takes the place
    of a value that strict conversion would stop at. */
module UtfLenient {
  import opened Utf
  import opened UtfConvert
  import opened UtfEndings

  // ---- From UTF-8: no difference ----

  lemma {:induction false} SameInBoth<S(!new), T>(move: Mover<S, T>, src: seq<S>, room: nat, status: Status)
    requires forall src, room: nat {:trigger move(src, room, Lenient)} :: move(src, room, Lenient) == move(src, room, Strict)
    ensures Convert(move, src, room, Lenient, status) == Convert(move, src, room, Strict, status)
    decreases |src|
  {
    match move(src, room, Strict)
    case Halt(_) =>
      assert move(src, room, Lenient) == Halt(move(src, room, Strict).status);
    case Emit(n, units, illegal) =>
      assert move(src, room, Lenient) == Emit(n, units, illegal);
      if 0 < n <= |src| && |units| <= room {
        SameInBoth(move, src[n..], room - |units|, if illegal then SourceIllegal else status);
      }
  }

  lemma Lenient8(src: seq<bv8>, room: nat)
    ensures Convert(Move8To32, src, room, Lenient, Ok) == Convert(Move8To32, src, room, Strict, Ok)
    ensures Convert(Move8To16, src, room, Lenient, Ok) == Convert(Move8To16, src, room, Strict, Ok)
  {
    SameInBoth(Move8To32, src, room, Ok);
    SameInBoth(Move8To16, src, room, Ok);
  }

  // ---- From UTF-16: lone surrogates stand for themselves ----

  ghost predicate Moves16<T>(move: Mover<bv16, T>, enc: Coder<T>) {
    forall src, room: nat {:trigger move(src, room, Lenient)} ::
      move(src, room, Lenient) ==
        if src == [] then Halt(Ok)
        else match Read16(src, Lenient)
          case Fail(status) => Halt(status)
          case Got(ch, n) => Put(n, enc(ch), room, false)
  }

  /** A unit, or a pair of surrogates, is the form of the value read. */
  lemma Read16Form(src: seq<bv16>)
    requires src != [] && Read16(src, Lenient).Got?
    ensures var r := Read16(src, Lenient); 0 < r.n <= |src| && Utf16(r.ch) == src[..r.n]
  {
    hide JoinPair, Scalar, Utf16, IsHigh, IsLow;
    if Read16(src, Lenient).n == 2 {
      UnpairBits(src[0], src[1]);
      assert src[..2] == [src[0], src[1]];
    } else {
      UnitForm(src[0]);
      assert src[..1] == [src[0]];
    }
  }

  lemma UnitForm(u: bv16)
    ensures Utf16(u as bv32) == [u]
  {
  }

  predicate High(ch: bv32) {
    0xD800 <= ch <= 0xDBFF
  }

  predicate Low(ch: bv32) {
    0xDC00 <= ch <= 0xDFFF
  }

  /** No two halves of a character side by side. */
  predicate Unpaired(chars: seq<bv32>) {
    forall i :: 0 <= i < |chars| - 1 ==> !(High(chars[i]) && Low(chars[i + 1]))
  }

  predicate Form16(s: seq<bv16>, ch: bv32) {
    s == Utf16(ch)
  }

  /** What is taken is the UTF-16 form of the values written, lone surrogates among them; and the call
      stops only at the end, at a high surrogate that is the last unit, or when the next value does not
      fit the target. */
  ghost predicate Took16<T>(move: Mover<bv16, T>, enc: Coder<T>, src: seq<bv16>, room: nat, chars: seq<bv32>) {
    var r := Convert(move, src, room, Lenient, Ok);
    && r.consumed <= |src| && src[..r.consumed] == Encoded(Utf16, chars) && r.units == Encoded(enc, chars)
    && Unpaired(chars) && |r.units| <= room
    && (r.status.TargetExhausted? ==> TooLong(Form16, enc, src[r.consumed..], room - |r.units|))
    && r.status == (if r.consumed == |src| then Ok
                    else if CutOff16(src[r.consumed..]) then SourceExhausted else TargetExhausted)
  }

  lemma Took16Stop<T>(move: Mover<bv16, T>, enc: Coder<T>, src: seq<bv16>, room: nat)
    requires move(src, room, Lenient) ==
      Halt(if src == [] then Ok else if CutOff16(src) then SourceExhausted else TargetExhausted)
    requires src == [] || CutOff16(src) || TooLong(Form16, enc, src, room)
    ensures Took16(move, enc, src, room, [])
  {
    hide CutOff16, Utf16, TooLong;
    assert src[0..] == src;
  }

  lemma Took16Cons<T>(move: Mover<bv16, T>, enc: Coder<T>, src: seq<bv16>, room: nat, n: nat, ch: bv32, more: seq<bv32>)
    requires 0 < n <= |src| && Utf16(ch) == src[..n] && |enc(ch)| <= room
    requires move(src, room, Lenient) == Emit(n, enc(ch), false)
    requires Took16(move, enc, src[n..], room - |enc(ch)|, more)
    requires High(ch) ==> n == 1 < |src| && !IsLow(src[1])
    ensures Took16(move, enc, src, room, [ch] + more)
  {
    LowFirst(more);
    hide CutOff16, Utf16, Convert, Encoded, TooLong, High, Low, IsLow;
    ConvertOne(move, src, room, Lenient, Ok, n, enc(ch), false);
    EncodedCons(Utf16, ch, more);
    EncodedCons(enc, ch, more);
    var k := Convert(move, src[n..], room - |enc(ch)|, Lenient, Ok).consumed;
    assert src[..n + k] == src[..n] + src[n..][..k] && src[n..][k..] == src[n + k..];
  }

  lemma LowFirst(more: seq<bv32>)
    ensures more != [] && Low(more[0]) ==> Encoded(Utf16, more) != [] && IsLow(Encoded(Utf16, more)[0])
  {
  }

  /** What is read as a high surrogate has no low one behind it. */
  lemma Read16Unpaired(src: seq<bv16>)
    requires src != [] && Read16(src, Lenient).Got?
    ensures High(Read16(src, Lenient).ch) ==> Read16(src, Lenient).n == 1 < |src| && !IsLow(src[1])
  {
    if Read16(src, Lenient).n == 2 {
      UnpairBits(src[0], src[1]);
      hide JoinPair;
    }
  }

  lemma EncodedCons<T>(enc: Coder<T>, ch: bv32, more: seq<bv32>)
    ensures Encoded(enc, [ch] + more) == enc(ch) + Encoded(enc, more)
  {
    assert ([ch] + more)[1..] == more;
  }

  lemma {:induction false} LenientFrom16<T>(move: Mover<bv16, T>, enc: Coder<T>, src: seq<bv16>, room: nat)
    returns (chars: seq<bv32>)
    requires Moves16(move, enc)
    ensures Took16(move, enc, src, room, chars)
    decreases |src|
  {
    hide Read16, Utf16, CutOff16, Took16;
    if src != [] {
      Fails16(src);
    }
    var m := move(src, room, Lenient);
    if src != [] && Read16(src, Lenient).Got? && |enc(Read16(src, Lenient).ch)| <= room {
      var r := Read16(src, Lenient);
      Read16Form(src);
      Read16Unpaired(src);
      chars := LenientFrom16(move, enc, src[r.n..], room - |enc(r.ch)|);
      Took16Cons(move, enc, src, room, r.n, r.ch, chars);
      chars := [r.ch] + chars;
    } else {
      chars := [];
      if src != [] && Read16(src, Lenient).Got? {
        Read16Form(src);
        var r := Read16(src, Lenient);
        assert Form16(src[..r.n], r.ch);
      }
      Took16Stop(move, enc, src, room);
    }
  }

  lemma Fails16(src: seq<bv16>)
    requires src != []
    ensures var r := Read16(src, Lenient);
      (r.Fail? <==> CutOff16(src)) && (r.Fail? ==> r.status == SourceExhausted) && (r.Got? ==> 0 < r.n <= |src|)
  {
  }

  lemma Lenient16(src: seq<bv16>, room: nat) returns (a: seq<bv32>, b: seq<bv32>)
    ensures Took16(Move16To32, Utf32, src, room, a) && Took16(Move16To8, Utf8, src, room, b)
  {
    hide Read16, Took16;
    a := LenientFrom16(Move16To32, Utf32, src, room);
    b := LenientFrom16(Move16To8, Utf8, src, room);
  }

  // ---- From UTF-32 ----

  /** What is no scalar value counts as the replacement character. */
  function Cleaned(chars: seq<bv32>): seq<bv32> {
    seq(|chars|, i requires 0 <= i < |chars| => if Scalar(chars[i]) then chars[i] else REPLACEMENT)
  }

  lemma {:induction false} LenientFrom32To16(src: seq<bv32>, room: nat, status: Status)
    ensures Convert(Move32To16, src, room, Lenient, status) == Convert(Move32To16, Cleaned(src), room, Strict, status)
    decreases |src|
  {
    hide Move32To16, Cleaned, Scalar, Utf16;
    MoveCleaned(src, room);
    if src != [] && Move32To16(src, room, Lenient).Emit? {
      LenientFrom32To16(src[1..], room - |Move32To16(src, room, Lenient).units|, status);
    }
  }

  lemma MoveCleaned(src: seq<bv32>, room: nat)
    ensures Move32To16(src, room, Lenient) == Move32To16(Cleaned(src), room, Strict)
    ensures src == [] ==> Move32To16(src, room, Lenient) == Halt(Ok)
    ensures |Cleaned(src)| == |src| && (src != [] ==> Cleaned(src)[1..] == Cleaned(src[1..]))
    ensures var m := Move32To16(src, room, Lenient); m.Emit? ==> m.n == 1 && !m.illegal && |m.units| <= room && src != []
  {
  }

  /** Towards UTF-16 every value that is no scalar value becomes the replacement character, as if the
      input had it; the call ends well if there is room. */
  lemma Lenient32To16(src: seq<bv32>, room: nat)
    ensures Convert(Move32To16, src, room, Lenient, Ok) == Convert(Move32To16, Cleaned(src), room, Strict, Ok)
  {
    LenientFrom32To16(src, room, Ok);
  }

  function AllCapped(chars: seq<bv32>): seq<bv32> {
    seq(|chars|, i requires 0 <= i < |chars| => Capped(chars[i]))
  }

  predicate Past(ch: bv32) {
    ch > MAX_LEGAL
  }

  ghost predicate PastLast(chars: seq<bv32>) {
    exists i :: 0 <= i < |chars| && Past(chars[i])
  }

  /** Towards UTF-8 surrogates are written in three bytes like any other value, and values past the last
      plane as the replacement character, after which the call is remembered as illegal. */
  ghost predicate Took32(src: seq<bv32>, room: nat, status: Status) {
    var r := Convert(Move32To8, src, room, Lenient, status);
    && r.consumed <= |src| && r.units == Encoded(Utf8, AllCapped(src[..r.consumed])) && |r.units| <= room
    && r.status == (if r.consumed < |src| then TargetExhausted else if PastLast(src) then SourceIllegal else status)
    && (r.consumed < |src| ==> |Utf8(Capped(src[r.consumed]))| > room - |r.units|)
  }

  lemma Took32Cons(src: seq<bv32>, room: nat, status: Status, st: Status)
    requires src != [] && |Utf8(Capped(src[0]))| <= room
    requires st == if Past(src[0]) then SourceIllegal else status
    requires status == Ok || status == SourceIllegal
    requires Took32(src[1..], room - |Utf8(Capped(src[0]))|, st)
    ensures Took32(src, room, status)
  {
    hide Past, Move32To8, Utf8, Capped, PastLast, Encoded, AllCapped, Convert;
    var past, units, left := Past(src[0]), Utf8(Capped(src[0])), src[1..];
    PastLastMore(src);
    MoveCapped(src, room);
    ConvertOne(Move32To8, src, room, Lenient, status, 1, units, past);
    assert (if past then SourceIllegal else status) == st;
    var r := Convert(Move32To8, left, room - |units|, Lenient, st);
    CappedCons(src, r.consumed);
    EncodedCons(Utf8, Capped(src[0]), AllCapped(left[..r.consumed]));
    assert r.consumed < |left| ==> src[1 + r.consumed] == left[r.consumed];
  }

  lemma CappedCons(src: seq<bv32>, k: nat)
    requires k < |src|
    ensures AllCapped(src[..1 + k]) == [Capped(src[0])] + AllCapped(src[1..][..k])
  {
    hide Capped;
  }

  lemma Took32Stop(src: seq<bv32>, room: nat, status: Status)
    requires src == [] || |Utf8(Capped(src[0]))| > room
    ensures Took32(src, room, status)
  {
    MoveCapped(src, room);
    PastLastMore(src);
    hide Move32To8, Utf8, Capped, PastLast;
    assert AllCapped(src[..0]) == [];
  }

  lemma {:induction false} Lenient32To8(src: seq<bv32>, room: nat, status: Status)
    requires status == Ok || status == SourceIllegal
    ensures Took32(src, room, status)
    decreases |src|
  {
    hide Took32, Utf8, Capped, Past;
    if src == [] || |Utf8(Capped(src[0]))| > room {
      Took32Stop(src, room, status);
    } else {
      var st := if Past(src[0]) then SourceIllegal else status;
      Lenient32To8(src[1..], room - |Utf8(Capped(src[0]))|, st);
      Took32Cons(src, room, status, st);
    }
  }

  lemma MoveCapped(src: seq<bv32>, room: nat)
    ensures Move32To8(src, room, Lenient) ==
      if src == [] then Halt(Ok) else Put(1, Utf8(Capped(src[0])), room, Past(src[0]))
    ensures Encoded(Utf8, AllCapped([])) == []
  {
    hide Utf8;
  }

  lemma PastLastMore(src: seq<bv32>)
    ensures PastLast(src) <==> src != [] && (Past(src[0]) || PastLast(src[1..]))
  {
    if PastLast(src) && !(Past(src[0])) {
      var i :| 0 <= i < |src| && Past(src[i]);
      assert Past(src[1..][i - 1]);
    }
    if src != [] && PastLast(src[1..]) {
      var i :| 0 <= i < |src[1..]| && Past(src[1..][i]);
      assert Past(src[i + 1]);
    }
  }
}
