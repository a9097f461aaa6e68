/** Where a strict call of demo/shared/linenoise-ng/ConvertUTF.cpp stops behind well-formed input, and
    with what status: exact conditions on what follows. */
module UtfEndings {
  import opened Utf
  import opened UtfConvert

  /** A strict call ends with this status at position k, having written units. */
  ghost predicate EndsAt<S, T>(move: Mover<S, T>, src: seq<S>, room: nat, status: Status, k: nat, units: seq<T>) {
    Convert(move, src, room, Strict, Ok) == Outcome(status, k, units)
  }

  /** It ends so behind well-formed input that fits exactly when the next move halts so; and well
      exactly when nothing follows, if the move takes no input for its end. */
  lemma EndsBehind<S(!new), T>(
    move: Mover<S, T>, dec: Coder<S>, enc: Coder<T>, chars: seq<bv32>, rest: seq<S>, room: nat, status: Status)
    requires Recodes(move, dec, enc) && Scalars(chars) && |Encoded(enc, chars)| <= room && status != Ok
    ensures EndsAt(move, Encoded(dec, chars) + rest, room, status, |Encoded(dec, chars)|, Encoded(enc, chars))
            <==> rest != [] && move(rest, room - |Encoded(enc, chars)|, Strict) == Halt(status)
  {
    ConvertsPrefix(move, dec, enc, chars, rest, room, Strict);
    assert Encoded(enc, chars) + [] == Encoded(enc, chars);
    hide Encoded, Recodes;
  }

  // ---- What may follow ----

  /** A low surrogate, or a high one with something else behind it. */
  predicate IllFormed16(src: seq<bv16>) {
    src != [] && (IsLow(src[0]) || (IsHigh(src[0]) && |src| > 1 && !IsLow(src[1])))
  }

  /** A high surrogate and then nothing. */
  predicate CutOff16(src: seq<bv16>) {
    |src| == 1 && IsHigh(src[0])
  }

  /** A whole character that takes more room than there is. */
  ghost predicate TooLong<S(!new), T>(stands: Stands<S>, enc: Coder<T>, src: seq<S>, room: nat) {
    exists n, ch :: 0 < n <= |src| && stands(src[..n], ch) && |enc(ch)| > room
  }

  /** As many bytes as the first one asks for, which do not pass the check. */
  predicate IllFormed8(src: seq<bv8>) {
    src != [] && Trailing(src[0]) < |src| && !IsLegal(src, Trailing(src[0]) + 1)
  }

  /** Fewer bytes than the first one asks for. */
  predicate CutOff8(src: seq<bv8>) {
    src != [] && |src| <= Trailing(src[0])
  }

  // ---- From UTF-16 ----

  lemma Reads16(src: seq<bv16>)
    requires src != []
    ensures Read16(src, Strict) == Fail(SourceIllegal) <==> IllFormed16(src)
    ensures Read16(src, Strict) == Fail(SourceExhausted) <==> CutOff16(src)
    ensures Read16(src, Strict) != Fail(TargetExhausted) && Read16(src, Strict) != Fail(Ok)
  {
  }

  /** What is read is the only character that begins there. */
  lemma OnlyChar16(src: seq<bv16>, n: nat, ch: bv32)
    requires 0 < n <= |src| && Piece16(src[..n], ch)
    ensures Read16(src, Strict) == Got(ch, n)
  {
    Read16Char(ch, src[n..], Strict);
    assert src[..n] + src[n..] == src;
  }

  lemma TooLong16<T>(enc: Coder<T>, src: seq<bv16>, room: nat)
    ensures TooLong(Piece16, enc, src, room) <==>
      src != [] && Read16(src, Strict).Got? && |enc(Read16(src, Strict).ch)| > room
  {
    if src != [] && Read16(src, Strict).Got? {
      Read16Piece(src);
    }
    forall n, ch | 0 < n <= |src| && Piece16(src[..n], ch)
      ensures Read16(src, Strict) == Got(ch, n)
    {
      OnlyChar16(src, n, ch);
    }
  }

  /** Every way a call can end behind well-formed input that fits, by what follows. */
  ghost predicate Endings<S(!new), T>(
    move: Mover<S, T>, dec: Coder<S>, enc: Coder<T>, stands: Stands<S>,
    illFormed: seq<S> -> bool, cutOff: seq<S> -> bool, chars: seq<bv32>, rest: seq<S>, room: nat)
    requires |Encoded(enc, chars)| <= room
  {
    var src, k, units := Encoded(dec, chars) + rest, |Encoded(dec, chars)|, Encoded(enc, chars);
    && (EndsAt(move, src, room, SourceIllegal, k, units) <==> illFormed(rest))
    && (EndsAt(move, src, room, SourceExhausted, k, units) <==> cutOff(rest))
    && (EndsAt(move, src, room, TargetExhausted, k, units) <==> TooLong(stands, enc, rest, room - |units|))
    && (EndsAt(move, src, room, Ok, k, units) <==> rest == [])
  }

  /** The move reads a character and writes it if there is room. */
  ghost predicate MovesAs<S, T>(move: Mover<S, T>, enc: Coder<T>, rest: seq<S>, room: nat, r: Read) {
    move(rest, room, Strict) == match r
      case Fail(status) => Halt(status)
      case Got(ch, n) => Put(n, enc(ch), room, false)
  }

  lemma EndsAsRead<S(!new), T>(
    move: Mover<S, T>, dec: Coder<S>, enc: Coder<T>, stands: Stands<S>,
    illFormed: seq<S> -> bool, cutOff: seq<S> -> bool, chars: seq<bv32>, rest: seq<S>, room: nat, r: Read)
    requires Recodes(move, dec, enc) && Scalars(chars) && |Encoded(enc, chars)| <= room && rest != []
    requires MovesAs(move, enc, rest, room - |Encoded(enc, chars)|, r)
    requires illFormed(rest) <==> r == Fail(SourceIllegal)
    requires cutOff(rest) <==> r == Fail(SourceExhausted)
    requires TooLong(stands, enc, rest, room - |Encoded(enc, chars)|) <==>
               r.Got? && |enc(r.ch)| > room - |Encoded(enc, chars)|
    requires r != Fail(TargetExhausted) && r != Fail(Ok) && (r.Got? ==> 0 < r.n <= |rest|)
    ensures Endings(move, dec, enc, stands, illFormed, cutOff, chars, rest, room)
  {
    EndsBehind(move, dec, enc, chars, rest, room, SourceIllegal);
    EndsBehind(move, dec, enc, chars, rest, room, SourceExhausted);
    EndsBehind(move, dec, enc, chars, rest, room, TargetExhausted);
    NotWell(move, dec, enc, chars, rest, room, r);
    hide EndsAt, Encoded, Recodes, TooLong;
  }

  lemma NotWell<S(!new), T>(
    move: Mover<S, T>, dec: Coder<S>, enc: Coder<T>, chars: seq<bv32>, rest: seq<S>, room: nat, r: Read)
    requires Recodes(move, dec, enc) && Scalars(chars) && |Encoded(enc, chars)| <= room && rest != []
    requires MovesAs(move, enc, rest, room - |Encoded(enc, chars)|, r) && r != Fail(Ok) && (r.Got? ==> 0 < r.n <= |rest|)
    ensures !EndsAt(move, Encoded(dec, chars) + rest, room, Ok, |Encoded(dec, chars)|, Encoded(enc, chars))
  {
    ConvertsPrefix(move, dec, enc, chars, rest, room, Strict);
    hide Encoded, Recodes;
  }

  lemma EndsNothing<S(!new), T>(
    move: Mover<S, T>, dec: Coder<S>, enc: Coder<T>, stands: Stands<S>,
    illFormed: seq<S> -> bool, cutOff: seq<S> -> bool, chars: seq<bv32>, room: nat)
    requires Recodes(move, dec, enc) && Scalars(chars) && |Encoded(enc, chars)| <= room
    requires !illFormed([]) && !cutOff([])
    ensures Endings(move, dec, enc, stands, illFormed, cutOff, chars, [], room)
  {
    ConvertsPrefix(move, dec, enc, chars, [], room, Strict);
    assert Encoded(enc, chars) + [] == Encoded(enc, chars);
    hide Encoded;
  }

  /** Behind well-formed UTF-16 that fits: illegal, cut off, target full, or done. */
  lemma EndsIff16(chars: seq<bv32>, rest: seq<bv16>, room: nat)
    requires Scalars(chars)
    ensures |Encoded(Utf32, chars)| <= room ==>
      Endings(Move16To32, Utf16, Utf32, Piece16, IllFormed16, CutOff16, chars, rest, room)
    ensures |Encoded(Utf8, chars)| <= room ==>
      Endings(Move16To8, Utf16, Utf8, Piece16, IllFormed16, CutOff16, chars, rest, room)
  {
    Recodes16To32();
    Recodes16To8();
    if |Encoded(Utf32, chars)| <= room {
      Ends16(Move16To32, Utf32, chars, rest, room);
    }
    if |Encoded(Utf8, chars)| <= room {
      Ends16(Move16To8, Utf8, chars, rest, room);
    }
  }

  lemma Ends16<T>(move: Mover<bv16, T>, enc: Coder<T>, chars: seq<bv32>, rest: seq<bv16>, room: nat)
    requires Recodes(move, Utf16, enc) && Scalars(chars) && |Encoded(enc, chars)| <= room
    requires rest != [] ==> MovesAs(move, enc, rest, room - |Encoded(enc, chars)|, Read16(rest, Strict))
    ensures Endings(move, Utf16, enc, Piece16, IllFormed16, CutOff16, chars, rest, room)
  {
    if rest == [] {
      EndsNothing(move, Utf16, enc, Piece16, IllFormed16, CutOff16, chars, room);
    } else {
      Reads16(rest);
      TooLong16(enc, rest, room - |Encoded(enc, chars)|);
      if Read16(rest, Strict).Got? {
        Read16Piece(rest);
      }
      hide Encoded, Recodes, TooLong, MovesAs, IllFormed16, CutOff16, Endings;
      EndsAsRead(move, Utf16, enc, Piece16, IllFormed16, CutOff16, chars, rest, room, Read16(rest, Strict));
    }
  }

  // ---- From UTF-8 ----

  lemma Reads8(src: seq<bv8>)
    requires src != []
    ensures Read8(src) == Fail(SourceIllegal) <==> IllFormed8(src)
    ensures Read8(src) == Fail(SourceExhausted) <==> CutOff8(src)
    ensures Read8(src) != Fail(TargetExhausted) && Read8(src) != Fail(Ok)
  {
  }

  lemma OnlyChar8(src: seq<bv8>, n: nat, ch: bv32)
    requires 0 < n <= |src| && Piece8(src[..n], ch)
    ensures Read8(src) == Got(ch, n)
  {
    assert src[..n][0] == src[0];
    hide Decoded, Trailing;
    assert IsLegal(src, n) <==> IsLegal(src[..n], n);
  }

  lemma TooLong8<T>(enc: Coder<T>, src: seq<bv8>, room: nat)
    ensures TooLong(Piece8, enc, src, room) <==> src != [] && Read8(src).Got? && |enc(Read8(src).ch)| > room
  {
    if src != [] && Read8(src).Got? {
      Read8Piece(src);
    }
    forall n, ch | 0 < n <= |src| && Piece8(src[..n], ch)
      ensures Read8(src) == Got(ch, n)
    {
      OnlyChar8(src, n, ch);
    }
  }

  lemma Ends8<T>(move: Mover<bv8, T>, enc: Coder<T>, chars: seq<bv32>, rest: seq<bv8>, room: nat)
    requires Recodes(move, Utf8, enc) && Scalars(chars) && |Encoded(enc, chars)| <= room
    requires rest != [] ==> MovesAs(move, enc, rest, room - |Encoded(enc, chars)|, Read8(rest))
    ensures Endings(move, Utf8, enc, Piece8, IllFormed8, CutOff8, chars, rest, room)
  {
    if rest == [] {
      EndsNothing(move, Utf8, enc, Piece8, IllFormed8, CutOff8, chars, room);
    } else {
      Reads8(rest);
      TooLong8(enc, rest, room - |Encoded(enc, chars)|);
      if Read8(rest).Got? {
        Read8Piece(rest);
      }
      hide Encoded, Recodes, TooLong, MovesAs, IllFormed8, CutOff8, Endings;
      EndsAsRead(move, Utf8, enc, Piece8, IllFormed8, CutOff8, chars, rest, room, Read8(rest));
    }
  }

  /** Behind well-formed UTF-8 likewise. */
  lemma EndsIff8(chars: seq<bv32>, rest: seq<bv8>, room: nat)
    requires Scalars(chars)
    ensures |Encoded(Utf32, chars)| <= room ==>
      Endings(Move8To32, Utf8, Utf32, Piece8, IllFormed8, CutOff8, chars, rest, room)
    ensures |Encoded(Utf16, chars)| <= room ==>
      Endings(Move8To16, Utf8, Utf16, Piece8, IllFormed8, CutOff8, chars, rest, room)
  {
    Recodes8To32();
    Recodes8To16();
    if |Encoded(Utf32, chars)| <= room {
      Ends8(Move8To32, Utf32, chars, rest, room);
    }
    if |Encoded(Utf16, chars)| <= room {
      Ends8(Move8To16, Utf16, chars, rest, room);
    }
  }

  // ---- From UTF-32 ----

  /** Behind scalar values: towards UTF-16 the room is looked at first, and a surrogate is illegal only
      if there is some; towards UTF-8 a surrogate is illegal in any case. */
  lemma EndsIff32(chars: seq<bv32>, rest: seq<bv32>, room: nat)
    requires Scalars(chars)
    ensures |Encoded(Utf16, chars)| <= room ==>
      var left, units := room - |Encoded(Utf16, chars)|, Encoded(Utf16, chars);
      && (EndsAt(Move32To16, chars + rest, room, SourceIllegal, |chars|, units) <==>
            rest != [] && left > 0 && Surrogate(rest[0]))
      && (EndsAt(Move32To16, chars + rest, room, TargetExhausted, |chars|, units) <==>
            rest != [] && (left == 0 || (Scalar(rest[0]) && |Utf16(rest[0])| > left)))
    ensures |Encoded(Utf8, chars)| <= room ==>
      var left, units := room - |Encoded(Utf8, chars)|, Encoded(Utf8, chars);
      && (EndsAt(Move32To8, chars + rest, room, SourceIllegal, |chars|, units) <==> rest != [] && Surrogate(rest[0]))
      && (EndsAt(Move32To8, chars + rest, room, TargetExhausted, |chars|, units) <==>
            rest != [] && !Surrogate(rest[0]) && |Utf8(Capped(rest[0]))| > left)
  {
    Recodes32To16();
    Recodes32To8();
    Encoded32(chars);
    hide Recodes, Encoded, EndsAt, Utf16, Utf8;
    if |Encoded(Utf16, chars)| <= room {
      EndsBehind(Move32To16, Utf32, Utf16, chars, rest, room, SourceIllegal);
      EndsBehind(Move32To16, Utf32, Utf16, chars, rest, room, TargetExhausted);
    }
    if |Encoded(Utf8, chars)| <= room {
      EndsBehind(Move32To8, Utf32, Utf8, chars, rest, room, SourceIllegal);
      EndsBehind(Move32To8, Utf32, Utf8, chars, rest, room, TargetExhausted);
    }
  }

  /** A value past the last plane counts as the replacement character. */
  function Capped(ch: bv32): bv32 {
    if ch > MAX_LEGAL then REPLACEMENT else ch
  }
}
