/** What the six conversion loops of demo/shared/linenoise-ng/ConvertUTF.cpp compute: one move per
    character, repeated until the source ends, the target is full, or the source is malformed. */
module UtfConvert {
  import opened Utf

  datatype Flags = Strict | Lenient
  datatype Status = Ok | SourceExhausted | TargetExhausted | SourceIllegal

  /** One pass of a loop: stop, or take n units and write some. A value past the last plane is
      remembered as illegal by the converters from UTF-32, which go on. */
  datatype Move<T> = Halt(status: Status) | Emit(n: nat, units: seq<T>, illegal: bool)

  type Mover<!S, T> = (seq<S>, nat, Flags) -> Move<T>

  /** An encoding form. */
  type Coder<T> = bv32 -> seq<T>

  /** Whether some units stand for a character. */
  type Stands<!S> = (seq<S>, bv32) -> bool

  datatype Read = Got(ch: bv32, n: nat) | Fail(status: Status)

  function Read16(src: seq<bv16>, flags: Flags): Read
    requires src != []
  {
    if IsHigh(src[0]) then
      if |src| == 1 then Fail(SourceExhausted)
      else if IsLow(src[1]) then Got(JoinPair(src[0], src[1]), 2)
      else if flags.Strict? then Fail(SourceIllegal)
      else Got(src[0] as bv32, 1)
    else if flags.Strict? && IsLow(src[0]) then Fail(SourceIllegal)
    else Got(src[0] as bv32, 1)
  }

  function Read8(src: seq<bv8>): Read
    requires src != []
  {
    var n := Trailing(src[0]) + 1;
    if n > |src| then Fail(SourceExhausted)
    else if !IsLegal(src, n) then Fail(SourceIllegal)
    else Got(Decoded(src[..n]), n)
  }

  /** Writes units if there is room for all of them. */
  function Put<T>(n: nat, units: seq<T>, room: nat, illegal: bool): Move<T> {
    if |units| > room then Halt(TargetExhausted) else Emit(n, units, illegal)
  }

  function Move32To16(src: seq<bv32>, room: nat, flags: Flags): Move<bv16> {
    if src == [] then Halt(Ok)
    else if room == 0 then Halt(TargetExhausted)
    else if Surrogate(src[0]) then
      if flags.Strict? then Halt(SourceIllegal) else Emit(1, [REPLACEMENT as bv16], false)
    else if src[0] > MAX_LEGAL then
      if flags.Strict? then Emit(1, [], true) else Emit(1, [REPLACEMENT as bv16], false)
    else Put(1, Utf16(src[0]), room, false)
  }

  function Move32To8(src: seq<bv32>, room: nat, flags: Flags): Move<bv8> {
    if src == [] then Halt(Ok)
    else if flags.Strict? && Surrogate(src[0]) then Halt(SourceIllegal)
    else if src[0] > MAX_LEGAL then Put(1, Utf8(REPLACEMENT), room, true)
    else Put(1, Utf8(src[0]), room, false)
  }

  function Move16To32(src: seq<bv16>, room: nat, flags: Flags): Move<bv32> {
    if src == [] then Halt(Ok)
    else
      match Read16(src, flags)
      case Fail(status) => Halt(status)
      case Got(ch, n) => Put(n, Utf32(ch), room, false)
  }

  function Move16To8(src: seq<bv16>, room: nat, flags: Flags): Move<bv8> {
    if src == [] then Halt(Ok)
    else
      match Read16(src, flags)
      case Fail(status) => Halt(status)
      case Got(ch, n) => Put(n, Utf8(ch), room, false)
  }

  function Move8To32(src: seq<bv8>, room: nat, flags: Flags): Move<bv32> {
    if src == [] then Halt(Ok)
    else
      match Read8(src)
      case Fail(status) => Halt(status)
      case Got(ch, n) => Put(n, Utf32(ch), room, false)
  }

  function Move8To16(src: seq<bv8>, room: nat, flags: Flags): Move<bv16> {
    if src == [] then Halt(Ok)
    else
      match Read8(src)
      case Fail(status) => Halt(status)
      case Got(ch, n) => Put(n, Utf16(ch), room, false)
  }

  datatype Outcome<T> = Outcome(status: Status, consumed: nat, units: seq<T>)

  /** A whole call; status is what an earlier character left. */
  function Convert<S, T>(move: Mover<S, T>, src: seq<S>, room: nat, flags: Flags, status: Status): Outcome<T>
    decreases |src|
  {
    match move(src, room, flags)
    case Halt(s) => Outcome(if src == [] then status else s, 0, [])
    case Emit(n, units, illegal) =>
      if !(0 < n <= |src|) || |units| > room then Outcome(status, 0, [])   // no move does this
      else
        var r := Convert(move, src[n..], room - |units|, flags, if illegal then SourceIllegal else status);
        Outcome(r.status, n + r.consumed, units + r.units)
  }

  lemma ConvertOne<S, T>(move: Mover<S, T>, src: seq<S>, room: nat, flags: Flags, status: Status,
                         n: nat, units: seq<T>, illegal: bool)
    requires move(src, room, flags) == Emit(n, units, illegal) && 0 < n <= |src| && |units| <= room
    ensures var r := Convert(move, src[n..], room - |units|, flags, if illegal then SourceIllegal else status);
      Convert(move, src, room, flags, status) == Outcome(r.status, n + r.consumed, units + r.units)
  {
  }

  // ---- Characters ----

  ghost predicate Scalars(chars: seq<bv32>) {
    forall i :: 0 <= i < |chars| ==> Scalar(chars[i])
  }

  function Encoded<T>(enc: Coder<T>, chars: seq<bv32>): seq<T> {
    if chars == [] then [] else enc(chars[0]) + Encoded(enc, chars[1..])
  }

  /** How many characters there is room for. */
  function Fit<T>(enc: Coder<T>, chars: seq<bv32>, room: nat): (k: nat)
    ensures k <= |chars|
  {
    if chars == [] || |enc(chars[0])| > room then 0 else 1 + Fit(enc, chars[1..], room - |enc(chars[0])|)
  }

  /** Those characters fit, and the next does not. */
  lemma {:induction false} FitIsMost<T>(enc: Coder<T>, chars: seq<bv32>, room: nat)
    ensures var k := Fit(enc, chars, room);
      |Encoded(enc, chars[..k])| <= room && (k < |chars| ==> |Encoded(enc, chars[..k + 1])| > room)
  {
    var k := Fit(enc, chars, room);
    if chars != [] && |enc(chars[0])| <= room {
      FitIsMost(enc, chars[1..], room - |enc(chars[0])|);
      assert chars[..k][1..] == chars[1..][..k - 1];
      assert k < |chars| ==> chars[..k + 1][1..] == chars[1..][..k];
    } else if chars != [] {
      assert chars[..1][1..] == [];
      assert Encoded(enc, chars[..1]) == enc(chars[0]) + Encoded(enc, []);
    }
  }

  lemma {:induction false} FitsWholeIff<T>(enc: Coder<T>, chars: seq<bv32>, room: nat)
    ensures Fit(enc, chars, room) == |chars| <==> |Encoded(enc, chars)| <= room
  {
    if chars != [] && |enc(chars[0])| <= room {
      FitsWholeIff(enc, chars[1..], room - |enc(chars[0])|);
    }
  }

  lemma {:induction false} EncodedSplit<T>(enc: Coder<T>, chars: seq<bv32>, k: nat)
    requires k <= |chars|
    ensures Encoded(enc, chars) == Encoded(enc, chars[..k]) + Encoded(enc, chars[k..])
  {
    if k == 0 {
      assert chars[..0] == [] && chars[0..] == chars;
    } else {
      EncodedSplit(enc, chars[1..], k - 1);
      assert chars[..k][1..] == chars[1..][..k - 1];
      assert chars[1..][k - 1..] == chars[k..];
    }
  }

  lemma EncodedRest<S>(dec: Coder<S>, chars: seq<bv32>, k: nat)
    requires k <= |chars|
    ensures |Encoded(dec, chars[..k])| <= |Encoded(dec, chars)|
    ensures Encoded(dec, chars)[|Encoded(dec, chars[..k])|..] == Encoded(dec, chars[k..])
  {
    EncodedSplit(dec, chars, k);
  }

  lemma EncodedJoin<T>(enc: Coder<T>, chars: seq<bv32>, i: nat, j: nat)
    requires i <= |chars| && j <= |chars| - i
    ensures Encoded(enc, chars[..i + j]) == Encoded(enc, chars[..i]) + Encoded(enc, chars[i..][..j])
  {
    hide Encoded;
    var s := chars[..i + j];
    EncodedSplit(enc, s, i);
    assert s[..i] == chars[..i] && s[i..] == chars[i..][..j];
  }

  /** The move takes one character in the form dec and writes it in the form enc, room permitting. */
  ghost predicate Recodes<S(!new), T>(move: Mover<S, T>, dec: Coder<S>, enc: Coder<T>) {
    && (forall room: nat, flags :: move([], room, flags) == Halt(Ok))
    && (forall ch :: Scalar(ch) ==> dec(ch) != [])
    && (forall ch, rest, room: nat, flags {:trigger move(dec(ch) + rest, room, flags)} :: Scalar(ch) ==>
          move(dec(ch) + rest, room, flags) == Put(|dec(ch)|, enc(ch), room, false))
  }

  /** What a call does with well-formed input, for any capacity: it stops between characters, having
      taken as many as there is room for and written exactly them. */
  lemma {:induction false} ConvertsChars<S(!new), T>(
    move: Mover<S, T>, dec: Coder<S>, enc: Coder<T>,
    chars: seq<bv32>, room: nat, flags: Flags)
    requires Recodes(move, dec, enc) && Scalars(chars)
    ensures var k := Fit(enc, chars, room);
      Convert(move, Encoded(dec, chars), room, flags, Ok) ==
        Outcome(if k == |chars| then Ok else TargetExhausted, |Encoded(dec, chars[..k])|, Encoded(enc, chars[..k]))
    decreases |chars|
  {
    var k := Fit(enc, chars, room);
    if chars == [] {
    } else {
      var ch, src := chars[0], Encoded(dec, chars);
      var rest := Encoded(dec, chars[1..]);
      assert move(dec(ch) + rest, room, flags) == Put(|dec(ch)|, enc(ch), room, false);
      if |enc(ch)| <= room {
        hide Convert;
        assert src[|dec(ch)|..] == rest;
        ConvertOne(move, src, room, flags, Ok, |dec(ch)|, enc(ch), false);
        ConvertsChars(move, dec, enc, chars[1..], room - |enc(ch)|, flags);
        assert chars[..k][0] == ch && chars[..k][1..] == chars[1..][..k - 1];
      }
    }
  }

  // ---- The six converters ----

  lemma Read16Char(ch: bv32, rest: seq<bv16>, flags: Flags)
    requires Scalar(ch)
    ensures Utf16(ch) != [] && Read16(Utf16(ch) + rest, flags) == Got(ch, |Utf16(ch)|)
  {
    if ch < HALF_BASE {
      UnitBits(ch);
    } else {
      PairBits(ch);
    }
  }

  lemma UnitBits(ch: bv32)
    requires Scalar(ch) && ch < HALF_BASE
    ensures (ch as bv16) as bv32 == ch && !IsHigh(ch as bv16) && !IsLow(ch as bv16)
  {
  }

  /** An encoded character passes the check, whatever follows it. */
  lemma Read8Char(ch: bv32, rest: seq<bv8>)
    requires Scalar(ch)
    ensures Utf8(ch) != [] && Read8(Utf8(ch) + rest) == Got(ch, |Utf8(ch)|)
  {
    Utf8RoundTrip(ch);
    var s := Utf8(ch);
    LegalIff(s);
    assert (s + rest)[..|s|] == s;
    assert IsLegal(s + rest, |s|) <==> IsLegal(s, |s|);
  }

  lemma Recodes32To16()
    ensures Recodes(Move32To16, Utf32, Utf16)
  {
  }

  lemma Recodes32To8()
    ensures Recodes(Move32To8, Utf32, Utf8)
  {
  }

  lemma Recodes16To32()
    ensures Recodes(Move16To32, Utf16, Utf32)
  {
    forall ch, rest, room: nat, flags | Scalar(ch)
      ensures Move16To32(Utf16(ch) + rest, room, flags) == Put(|Utf16(ch)|, Utf32(ch), room, false)
    {
      Read16Char(ch, rest, flags);
    }
  }

  lemma Recodes16To8()
    ensures Recodes(Move16To8, Utf16, Utf8)
  {
    forall ch, rest, room: nat, flags | Scalar(ch)
      ensures Move16To8(Utf16(ch) + rest, room, flags) == Put(|Utf16(ch)|, Utf8(ch), room, false)
    {
      Read16Char(ch, rest, flags);
    }
  }

  lemma Recodes8To32()
    ensures Recodes(Move8To32, Utf8, Utf32)
  {
    forall ch, rest, room: nat, flags | Scalar(ch)
      ensures Move8To32(Utf8(ch) + rest, room, flags) == Put(|Utf8(ch)|, Utf32(ch), room, false)
    {
      Read8Char(ch, rest);
    }
  }

  lemma Recodes8To16()
    ensures Recodes(Move8To16, Utf8, Utf16)
  {
    forall ch, rest, room: nat, flags | Scalar(ch)
      ensures Move8To16(Utf8(ch) + rest, room, flags) == Put(|Utf8(ch)|, Utf16(ch), room, false)
    {
      Read8Char(ch, rest);
    }
  }

  // ---- Round trips ----

  /** With room for everything the whole text is converted. */
  lemma Whole<S(!new), T>(
    move: Mover<S, T>, dec: Coder<S>, enc: Coder<T>,
    chars: seq<bv32>, room: nat, flags: Flags)
    requires Recodes(move, dec, enc) && Scalars(chars) && |Encoded(enc, chars)| <= room
    ensures Convert(move, Encoded(dec, chars), room, flags, Ok) == Outcome(Ok, |Encoded(dec, chars)|, Encoded(enc, chars))
  {
  }

  lemma {:induction false} Encoded32(chars: seq<bv32>)
    ensures Encoded(Utf32, chars) == chars
  {
    if chars != [] {
      Encoded32(chars[1..]);
    }
  }

  /** A whole conversion with room to spare. */
  function Converted<S, T>(move: Mover<S, T>, src: seq<S>, room: nat, flags: Flags): (Status, seq<T>) {
    var r := Convert(move, src, room, flags, Ok);
    (r.status, r.units)
  }

  /** From any form to any other and back. */
  lemma RoundTrip<S(!new), T(!new)>(
    there: Mover<S, T>, back: Mover<T, S>, dec: Coder<S>, enc: Coder<T>,
    chars: seq<bv32>, room: nat, flags: Flags)
    requires Recodes(there, dec, enc) && Recodes(back, enc, dec) && Scalars(chars)
    requires |Encoded(enc, chars)| <= room && |Encoded(dec, chars)| <= room
    ensures var src := Encoded(dec, chars);
      && Converted(there, src, room, flags).0 == Ok
      && Converted(back, Converted(there, src, room, flags).1, room, flags) == (Ok, src)
  {
    Whole(there, dec, enc, chars, room, flags);
    Whole(back, enc, dec, chars, room, flags);
  }

  /** Text as scalar values survives UTF-8 and UTF-16, and UTF-16 survives UTF-8. */
  lemma RoundTrips(chars: seq<bv32>, room: nat, flags: Flags)
    requires Scalars(chars)
    requires |chars| <= room && |Encoded(Utf8, chars)| <= room && |Encoded(Utf16, chars)| <= room
    ensures Converted(Move8To32, Converted(Move32To8, chars, room, flags).1, room, flags) == (Ok, chars)
    ensures Converted(Move16To32, Converted(Move32To16, chars, room, flags).1, room, flags) == (Ok, chars)
    ensures var src := Encoded(Utf16, chars);
      Converted(Move8To16, Converted(Move16To8, src, room, flags).1, room, flags) == (Ok, src)
  {
    Encoded32(chars);
    Recodes32To8();
    Recodes8To32();
    Recodes32To16();
    Recodes16To32();
    Recodes16To8();
    Recodes8To16();
    RoundTrip(Move32To8, Move8To32, Utf32, Utf8, chars, room, flags);
    RoundTrip(Move32To16, Move16To32, Utf32, Utf16, chars, room, flags);
    RoundTrip(Move16To8, Move8To16, Utf16, Utf8, chars, room, flags);
  }

  /** Going through UTF-32 makes no difference, in either direction. */
  lemma DirectEqualsDetour(chars: seq<bv32>, room: nat, flags: Flags)
    requires Scalars(chars)
    requires |chars| <= room && |Encoded(Utf8, chars)| <= room && |Encoded(Utf16, chars)| <= room
    ensures var src := Encoded(Utf16, chars);
      Converted(Move16To8, src, room, flags) == Converted(Move32To8, Converted(Move16To32, src, room, flags).1, room, flags)
    ensures var src := Encoded(Utf8, chars);
      Converted(Move8To16, src, room, flags) == Converted(Move32To16, Converted(Move8To32, src, room, flags).1, room, flags)
  {
    Encoded32(chars);
    Recodes32To8();
    Recodes8To32();
    Recodes32To16();
    Recodes16To32();
    Recodes16To8();
    Recodes8To16();
    Whole(Move16To8, Utf16, Utf8, chars, room, flags);
    Whole(Move16To32, Utf16, Utf32, chars, room, flags);
    Whole(Move32To8, Utf32, Utf8, chars, room, flags);
    Whole(Move8To16, Utf8, Utf16, chars, room, flags);
    Whole(Move8To32, Utf8, Utf32, chars, room, flags);
    Whole(Move32To16, Utf32, Utf16, chars, room, flags);
  }

  // ---- Stopping and resuming ----

  /** Calls one after the other, each going on where the last one stopped, with these capacities. */
  function Resumed<S, T>(move: Mover<S, T>, src: seq<S>, rooms: seq<nat>, flags: Flags): (nat, seq<T>)
    decreases |rooms|
  {
    if rooms == [] then (0, [])
    else
      var r := Convert(move, src, rooms[0], flags, Ok);
      if r.consumed > |src| then (r.consumed, r.units)   // does not happen
      else
        var (m, units) := Resumed(move, src[r.consumed..], rooms[1..], flags);
        (r.consumed + m, r.units + units)
  }

  /** The first call takes and writes some characters, and the others go on behind them. */
  lemma ResumedStep<S(!new), T>(
    move: Mover<S, T>, dec: Coder<S>, enc: Coder<T>,
    chars: seq<bv32>, rooms: seq<nat>, flags: Flags) returns (i: nat)
    requires Recodes(move, dec, enc) && Scalars(chars) && rooms != []
    ensures i == Fit(enc, chars, rooms[0]) <= |chars|
    ensures var r := Resumed(move, Encoded(dec, chars[i..]), rooms[1..], flags);
      Resumed(move, Encoded(dec, chars), rooms, flags) ==
        (|Encoded(dec, chars[..i])| + r.0, Encoded(enc, chars[..i]) + r.1)
  {
    hide Convert, Encoded, Fit, Recodes;
    ConvertsChars(move, dec, enc, chars, rooms[0], flags);
    i := Fit(enc, chars, rooms[0]);
    EncodedRest(dec, chars, i);
  }

  /** However many calls and whatever their capacities, what they took is a number of whole characters
      and what they wrote is those characters; so once all is taken it is what one call would write. */
  lemma {:induction false} ResumedChars<S(!new), T>(
    move: Mover<S, T>, dec: Coder<S>, enc: Coder<T>,
    chars: seq<bv32>, rooms: seq<nat>, flags: Flags) returns (k: nat)
    requires Recodes(move, dec, enc) && Scalars(chars)
    ensures k <= |chars|
    ensures Resumed(move, Encoded(dec, chars), rooms, flags) == (|Encoded(dec, chars[..k])|, Encoded(enc, chars[..k]))
    decreases |rooms|
  {
    if rooms == [] {
      k := 0;
    } else {
      hide Convert, Encoded, Fit, Recodes, Resumed;
      var i := ResumedStep(move, dec, enc, chars, rooms, flags);
      ScalarsFrom(chars, i);
      hide Scalars;
      var j := ResumedChars(move, dec, enc, chars[i..], rooms[1..], flags);
      k := i + j;
      EncodedJoin(dec, chars, i, j);
      EncodedJoin(enc, chars, i, j);
    }
  }

  lemma ResumedWhole<S(!new), T>(
    move: Mover<S, T>, dec: Coder<S>, enc: Coder<T>,
    chars: seq<bv32>, rooms: seq<nat>, flags: Flags)
    requires Recodes(move, dec, enc) && Scalars(chars)
    requires Resumed(move, Encoded(dec, chars), rooms, flags).0 == |Encoded(dec, chars)|
    ensures Resumed(move, Encoded(dec, chars), rooms, flags).1 == Encoded(enc, chars)
  {
    var k := ResumedChars(move, dec, enc, chars, rooms, flags);
    EncodedSplit(dec, chars, k);
    var rest := chars[k..];
    assert rest != [] ==> Scalar(rest[0]);
    assert chars[..|chars|] == chars;
  }

  /** No character takes more than n units. */
  ghost predicate Within<T>(enc: Coder<T>, n: nat) {
    forall ch :: Scalar(ch) ==> |enc(ch)| <= n
  }

  lemma LongestForms()
    ensures Within(Utf32, 1) && Within(Utf16, 2) && Within(Utf8, 4)
  {
  }

  /** As many calls as there are characters, each with room for the longest form, take everything. */
  lemma {:induction false} ResumedAll<S(!new), T>(
    move: Mover<S, T>, dec: Coder<S>, enc: Coder<T>,
    chars: seq<bv32>, rooms: seq<nat>, n: nat, flags: Flags)
    requires Recodes(move, dec, enc) && Scalars(chars) && Within(enc, n)
    requires |chars| <= |rooms| && forall i :: 0 <= i < |rooms| ==> rooms[i] >= n
    ensures Resumed(move, Encoded(dec, chars), rooms, flags) == (|Encoded(dec, chars)|, Encoded(enc, chars))
    decreases |rooms|
  {
    if chars == [] {
      NothingResumed(move, dec, enc, rooms, flags);
    } else {
      FitsOne(enc, chars, rooms[0], n);
      hide *;
      var i := ResumedStep(move, dec, enc, chars, rooms, flags);
      ScalarsFrom(chars, i);
      ResumedAll(move, dec, enc, chars[i..], rooms[1..], n, flags);
      EncodedSplit(dec, chars, i);
      EncodedSplit(enc, chars, i);
    }
  }

  lemma FitsOne<T>(enc: Coder<T>, chars: seq<bv32>, room: nat, n: nat)
    requires chars != [] && Scalars(chars) && Within(enc, n) && n <= room
    ensures Fit(enc, chars, room) > 0
  {
    assert Scalar(chars[0]);
  }

  lemma ScalarsFrom(chars: seq<bv32>, i: nat)
    requires i <= |chars| && Scalars(chars)
    ensures Scalars(chars[i..])
  {
  }

  lemma {:induction false} NothingResumed<S(!new), T>(
    move: Mover<S, T>, dec: Coder<S>, enc: Coder<T>, rooms: seq<nat>, flags: Flags)
    requires Recodes(move, dec, enc)
    ensures Resumed(move, Encoded(dec, []), rooms, flags) == (0, []) && Encoded(dec, []) == [] && Encoded(enc, []) == []
    decreases |rooms|
  {
    var none: seq<S> := Encoded(dec, []);
    if rooms != [] {
      assert move(none, rooms[0], flags) == Halt(Ok) && none[0..] == none;
      NothingResumed(move, dec, enc, rooms[1..], flags);
      var written: seq<T> := [];
      assert Convert(move, none, rooms[0], flags, Ok) == Outcome(Ok, 0, written) && written + [] == written;
    }
  }

  // ---- Any input, strict mode ----

  /** The move takes a piece that stands for a character and writes that character. */
  ghost predicate Faithful<S(!new), T>(move: Mover<S, T>, piece: Stands<S>, enc: Coder<T>) {
    forall src, room: nat {:trigger move(src, room, Strict)} ::
      match move(src, room, Strict)
      case Halt(status) => src == [] || status != Ok
      case Emit(n, units, illegal) =>
        0 < n <= |src| && |units| <= room && (illegal || exists ch :: piece(src[..n], ch) && units == enc(ch))
  }

  predicate Pieces<S>(piece: Stands<S>, ps: seq<seq<S>>, chars: seq<bv32>) {
    |ps| == |chars| && forall i :: 0 <= i < |ps| ==> piece(ps[i], chars[i])
  }

  function Joined<S>(ps: seq<seq<S>>): seq<S> {
    if ps == [] then [] else ps[0] + Joined(ps[1..])
  }

  /** No value past the last plane is passed over. */
  ghost predicate PassesNone<S, T>(move: Mover<S, T>, src: seq<S>, room: nat)
    decreases |src|
  {
    match move(src, room, Strict)
    case Halt(_) => true
    case Emit(n, units, illegal) =>
      0 < n <= |src| && |units| <= room ==> !illegal && PassesNone(move, src[n..], room - |units|)
  }

  lemma FaithfulAt<S(!new), T>(move: Mover<S, T>, piece: Stands<S>, enc: Coder<T>, src: seq<S>, room: nat)
    requires Faithful(move, piece, enc) && move(src, room, Strict).Emit?
    ensures var Emit(n, units, illegal) := move(src, room, Strict);
      0 < n <= |src| && |units| <= room && (illegal || exists ch :: piece(src[..n], ch) && units == enc(ch))
  {
  }

  /** ps are the pieces taken, chars the characters they stand for. */
  ghost predicate Took<S, T>(
    move: Mover<S, T>, piece: Stands<S>, enc: Coder<T>,
    src: seq<S>, room: nat, status: Status, ps: seq<seq<S>>, chars: seq<bv32>)
  {
    var r := Convert(move, src, room, Strict, status);
    && r.consumed <= |src|
    && (r.status == Ok ==> r.consumed == |src| && status == Ok && PassesNone(move, src, room))
    && (PassesNone(move, src, room) ==>
          Pieces(piece, ps, chars) && src[..r.consumed] == Joined(ps) && r.units == Encoded(enc, chars))
  }

  lemma TookOne<S, T>(
    move: Mover<S, T>, piece: Stands<S>, enc: Coder<T>, src: seq<S>, room: nat, status: Status,
    n: nat, ch: bv32, ps: seq<seq<S>>, chars: seq<bv32>)
    requires move(src, room, Strict) == Emit(n, enc(ch), false) && 0 < n <= |src| && |enc(ch)| <= room && piece(src[..n], ch)
    requires Took(move, piece, enc, src[n..], room - |enc(ch)|, status, ps, chars)
    ensures Took(move, piece, enc, src, room, status, [src[..n]] + ps, [ch] + chars)
  {
  }

  lemma TookIllegal<S, T>(
    move: Mover<S, T>, piece: Stands<S>, enc: Coder<T>, src: seq<S>, room: nat, status: Status,
    n: nat, units: seq<T>, ps: seq<seq<S>>, chars: seq<bv32>)
    requires move(src, room, Strict) == Emit(n, units, true) && 0 < n <= |src| && |units| <= room
    requires Took(move, piece, enc, src[n..], room - |units|, SourceIllegal, ps, chars)
    ensures Took(move, piece, enc, src, room, status, [], [])
  {
  }

  /** Unless something illegal is passed over, what a call takes is pieces that stand for characters,
      and what it writes is those characters. A call that ends well has taken everything. */
  lemma {:induction false} TakesPieces<S(!new), T>(
    move: Mover<S, T>, piece: Stands<S>, enc: Coder<T>,
    src: seq<S>, room: nat, status: Status) returns (ps: seq<seq<S>>, chars: seq<bv32>)
    requires Faithful(move, piece, enc)
    ensures Took(move, piece, enc, src, room, status, ps, chars)
    decreases |src|
  {
    ps, chars := [], [];
    match move(src, room, Strict)
    case Halt(_) =>
    case Emit(n, units, illegal) =>
      FaithfulAt(move, piece, enc, src, room);
      hide Took, Faithful;
      ps, chars := TakesPieces(move, piece, enc, src[n..], room - |units|, if illegal then SourceIllegal else status);
      if illegal {
        TookIllegal(move, piece, enc, src, room, status, n, units, ps, chars);
        ps, chars := [], [];
      } else {
        var ch :| piece(src[..n], ch) && units == enc(ch);
        TookOne(move, piece, enc, src, room, status, n, ch, ps, chars);
        ps, chars := [src[..n]] + ps, [ch] + chars;
      }
  }

  predicate Piece32(s: seq<bv32>, ch: bv32) {
    s == [ch] && Scalar(ch)
  }

  predicate Piece16(s: seq<bv16>, ch: bv32) {
    s == Utf16(ch) && Scalar(ch)
  }

  /** As many bytes as the first one tells, passing the check. */
  predicate Piece8(s: seq<bv8>, ch: bv32) {
    s != [] && |s| == Trailing(s[0]) + 1 && IsLegal(s, |s|) && ch == Decoded(s)
  }

  lemma Read16Piece(src: seq<bv16>)
    requires src != [] && Read16(src, Strict).Got?
    ensures var r := Read16(src, Strict); r.n <= |src| && Piece16(src[..r.n], r.ch)
  {
    hide Utf16, JoinPair, Scalar, IsHigh, IsLow;
    if IsHigh(src[0]) {
      UnpairBits(src[0], src[1]);
      assert src[..2] == [src[0], src[1]];
    } else {
      LoneUnit(src[0]);
      assert src[..1] == [src[0]];
    }
  }

  lemma LoneUnit(u: bv16)
    requires !IsHigh(u) && !IsLow(u)
    ensures Scalar(u as bv32) && Utf16(u as bv32) == [u]
  {
  }

  lemma Read8Piece(src: seq<bv8>)
    requires src != [] && Read8(src).Got?
    ensures var r := Read8(src); r.n <= |src| && Piece8(src[..r.n], r.ch)
  {
  }

  lemma Faithful16()
    ensures Faithful(Move16To32, Piece16, Utf32) && Faithful(Move16To8, Piece16, Utf8)
  {
    hide Read16, Piece16, Utf32, Utf8;
    forall src: seq<bv16> | src != []
      ensures var r := Read16(src, Strict);
        r != Fail(Ok) && (r.Got? ==> 0 < r.n <= |src| && Piece16(src[..r.n], r.ch))
    {
      Read16Well(src);
    }
  }

  lemma Read16Well(src: seq<bv16>)
    requires src != []
    ensures var r := Read16(src, Strict);
      r != Fail(Ok) && (r.Got? ==> 0 < r.n <= |src| && Piece16(src[..r.n], r.ch))
  {
    if Read16(src, Strict).Got? {
      Read16Piece(src);
      hide Piece16;
    }
  }

  lemma Faithful8()
    ensures Faithful(Move8To32, Piece8, Utf32) && Faithful(Move8To16, Piece8, Utf16)
  {
  }

  lemma Faithful32()
    ensures Faithful(Move32To16, Piece32, Utf16) && Faithful(Move32To8, Piece32, Utf8)
  {
  }

  /** The pieces are exactly the encodings in the form dec. */
  ghost predicate Exactly<S(!new)>(piece: Stands<S>, dec: Coder<S>) {
    forall s, ch {:trigger piece(s, ch)} :: piece(s, ch) ==> Scalar(ch) && s == dec(ch)
  }

  lemma {:induction false} JoinedPieces<S(!new)>(piece: Stands<S>, dec: Coder<S>, ps: seq<seq<S>>, chars: seq<bv32>)
    requires Exactly(piece, dec) && Pieces(piece, ps, chars)
    ensures Scalars(chars) && Joined(ps) == Encoded(dec, chars)
  {
    if ps != [] {
      assert piece(ps[0], chars[0]);
      JoinedPieces(piece, dec, ps[1..], chars[1..]);
    }
  }

  ghost predicate FitsAs<S, T>(dec: Coder<S>, enc: Coder<T>, src: seq<S>, room: nat, chars: seq<bv32>) {
    Scalars(chars) && Encoded(dec, chars) == src && |Encoded(enc, chars)| <= room
  }

  /** A call never writes more than there is room for, nor takes more than there is. */
  lemma {:induction false} WritesWithin<S, T>(move: Mover<S, T>, src: seq<S>, room: nat, flags: Flags, status: Status)
    ensures var r := Convert(move, src, room, flags, status);
      |r.units| <= room && r.consumed <= |src|
    decreases |src|
  {
    match move(src, room, flags)
    case Halt(_) =>
    case Emit(n, units, illegal) =>
      if 0 < n <= |src| && |units| <= room {
        WritesWithin(move, src[n..], room - |units|, flags, if illegal then SourceIllegal else status);
      }
  }

  /** In strict mode a call ends well exactly when its input is well formed and its target large enough. */
  lemma EndsWellIff<S(!new), T>(
    move: Mover<S, T>, piece: Stands<S>, dec: Coder<S>, enc: Coder<T>,
    src: seq<S>, room: nat)
    requires Recodes(move, dec, enc) && Faithful(move, piece, enc) && Exactly(piece, dec)
    ensures Convert(move, src, room, Strict, Ok).status == Ok <==> exists chars :: FitsAs(dec, enc, src, room, chars)
  {
    forall chars | FitsAs(dec, enc, src, room, chars)
      ensures Convert(move, src, room, Strict, Ok).status == Ok
    {
      Whole(move, dec, enc, chars, room, Strict);
    }
    if Convert(move, src, room, Strict, Ok).status == Ok {
      var ps, chars := TakesPieces(move, piece, enc, src, room, Ok);
      WritesWithin(move, src, room, Strict, Ok);
      JoinedPieces(piece, dec, ps, chars);
      assert src[..|src|] == src;
      assert FitsAs(dec, enc, src, room, chars);
    }
  }

  lemma EndsWellIff16(src: seq<bv16>, room: nat)
    ensures Convert(Move16To32, src, room, Strict, Ok).status == Ok <==> exists chars :: FitsAs(Utf16, Utf32, src, room, chars)
    ensures Convert(Move16To8, src, room, Strict, Ok).status == Ok <==> exists chars :: FitsAs(Utf16, Utf8, src, room, chars)
  {
    Recodes16To32();
    Recodes16To8();
    Faithful16();
    EndsWellIff(Move16To32, Piece16, Utf16, Utf32, src, room);
    EndsWellIff(Move16To8, Piece16, Utf16, Utf8, src, room);
  }

  lemma EndsWellIff32(src: seq<bv32>, room: nat)
    ensures Convert(Move32To16, src, room, Strict, Ok).status == Ok <==> Scalars(src) && |Encoded(Utf16, src)| <= room
    ensures Convert(Move32To8, src, room, Strict, Ok).status == Ok <==> Scalars(src) && |Encoded(Utf8, src)| <= room
  {
    Recodes32To16();
    Recodes32To8();
    Faithful32();
    EndsWellIff(Move32To16, Piece32, Utf32, Utf16, src, room);
    EndsWellIff(Move32To8, Piece32, Utf32, Utf8, src, room);
    forall chars: seq<bv32>
      ensures Encoded(Utf32, chars) == chars
    {
      Encoded32(chars);
    }
    assert Scalars(src) && |Encoded(Utf16, src)| <= room ==> FitsAs(Utf32, Utf16, src, room, src);
    assert Scalars(src) && |Encoded(Utf8, src)| <= room ==> FitsAs(Utf32, Utf8, src, room, src);
  }

  lemma {:induction false} NonePassed<S(!new), T>(move: Mover<S, T>, src: seq<S>, room: nat)
    requires forall src, room: nat {:trigger move(src, room, Strict)} ::
               move(src, room, Strict).Emit? ==> !move(src, room, Strict).illegal
    ensures PassesNone(move, src, room)
    decreases |src|
  {
    match move(src, room, Strict)
    case Halt(_) =>
    case Emit(n, units, illegal) =>
      if 0 < n <= |src| && |units| <= room {
        NonePassed(move, src[n..], room - |units|);
      }
  }

  /** Any UTF-16 input: what was taken is well formed, and what was written is its conversion. */
  lemma Takes16(src: seq<bv16>, room: nat) returns (a: seq<bv32>, b: seq<bv32>)
    ensures var r := Convert(Move16To32, src, room, Strict, Ok);
      Scalars(a) && r.consumed <= |src| && src[..r.consumed] == Encoded(Utf16, a) && r.units == a
    ensures var r := Convert(Move16To8, src, room, Strict, Ok);
      Scalars(b) && r.consumed <= |src| && src[..r.consumed] == Encoded(Utf16, b) && r.units == Encoded(Utf8, b)
  {
    Faithful16();
    var ps, qs;
    ps, a := TakesPieces(Move16To32, Piece16, Utf32, src, room, Ok);
    qs, b := TakesPieces(Move16To8, Piece16, Utf8, src, room, Ok);
    NonePassed(Move16To32, src, room);
    NonePassed(Move16To8, src, room);
    JoinedPieces(Piece16, Utf16, ps, a);
    JoinedPieces(Piece16, Utf16, qs, b);
    Encoded32(a);
  }

  /** Any UTF-8 input: what was taken is pieces that pass the check, what was written is their
      characters; and encoding those gives the input back exactly when every piece is well formed. */
  lemma Takes8To32(src: seq<bv8>, room: nat) returns (ps: seq<seq<bv8>>, chars: seq<bv32>)
    ensures var r := Convert(Move8To32, src, room, Strict, Ok);
      && r.consumed <= |src| && src[..r.consumed] == Joined(ps) && r.units == chars
      && Pieces(Piece8, ps, chars) && Scalars(chars)
      && (Encoded(Utf8, chars) == src[..r.consumed] <==> WellFormed(ps))
  {
    Faithful8();
    ps, chars := TakesPieces(Move8To32, Piece8, Utf32, src, room, Ok);
    NonePassed(Move8To32, src, room);
    Encoded32(chars);
    BackIff8(ps, chars);
  }

  lemma Takes8To16(src: seq<bv8>, room: nat) returns (ps: seq<seq<bv8>>, chars: seq<bv32>)
    ensures var r := Convert(Move8To16, src, room, Strict, Ok);
      && r.consumed <= |src| && src[..r.consumed] == Joined(ps) && r.units == Encoded(Utf16, chars)
      && Pieces(Piece8, ps, chars) && Scalars(chars)
      && (Encoded(Utf8, chars) == src[..r.consumed] <==> WellFormed(ps))
  {
    Faithful8();
    ps, chars := TakesPieces(Move8To16, Piece8, Utf16, src, room, Ok);
    NonePassed(Move8To16, src, room);
    BackIff8(ps, chars);
  }

  /** A piece at the front is taken, whatever follows it. */
  ghost predicate TakesPiece<S(!new), T>(move: Mover<S, T>, piece: Stands<S>, enc: Coder<T>) {
    && (forall room: nat :: move([], room, Strict) == Halt(Ok))
    && (forall s, ch {:trigger piece(s, ch)} :: piece(s, ch) ==> s != [])
    && (forall s, ch, rest, room: nat {:trigger piece(s, ch), move(s + rest, room, Strict)} :: piece(s, ch) ==>
          move(s + rest, room, Strict) == Put(|s|, enc(ch), room, false))
  }

  /** ps are src cut into pieces for chars, which fit the target. */
  ghost predicate FitsInPieces<S, T>(
    piece: Stands<S>, enc: Coder<T>, src: seq<S>, room: nat, ps: seq<seq<S>>, chars: seq<bv32>)
  {
    Pieces(piece, ps, chars) && Joined(ps) == src && |Encoded(enc, chars)| <= room
  }

  lemma {:induction false} ConvertsPieces<S(!new), T>(
    move: Mover<S, T>, piece: Stands<S>, enc: Coder<T>, ps: seq<seq<S>>, chars: seq<bv32>, room: nat)
    requires TakesPiece(move, piece, enc) && Pieces(piece, ps, chars) && |Encoded(enc, chars)| <= room
    ensures Convert(move, Joined(ps), room, Strict, Ok).status == Ok
    decreases |ps|
  {
    if ps != [] {
      var s, ch, rest := ps[0], chars[0], Joined(ps[1..]);
      assert piece(s, ch) && move(s + rest, room, Strict) == Put(|s|, enc(ch), room, false);
      hide Convert;
      ConvertOne(move, s + rest, room, Strict, Ok, |s|, enc(ch), false);
      assert (s + rest)[|s|..] == rest;
      ConvertsPieces(move, piece, enc, ps[1..], chars[1..], room - |enc(ch)|);
    }
  }

  lemma EndsWellInPieces<S(!new), T>(move: Mover<S, T>, piece: Stands<S>, enc: Coder<T>, src: seq<S>, room: nat)
    requires TakesPiece(move, piece, enc) && Faithful(move, piece, enc)
    ensures Convert(move, src, room, Strict, Ok).status == Ok
            <==> exists ps, chars :: FitsInPieces(piece, enc, src, room, ps, chars)
  {
    forall ps, chars | FitsInPieces(piece, enc, src, room, ps, chars)
      ensures Convert(move, src, room, Strict, Ok).status == Ok
    {
      ConvertsPieces(move, piece, enc, ps, chars, room);
    }
    if Convert(move, src, room, Strict, Ok).status == Ok {
      var ps, chars := TakesPieces(move, piece, enc, src, room, Ok);
      WritesWithin(move, src, room, Strict, Ok);
      assert src[..|src|] == src;
      assert FitsInPieces(piece, enc, src, room, ps, chars);
    }
  }

  lemma PieceFront(s: seq<bv8>, ch: bv32, rest: seq<bv8>)
    requires Piece8(s, ch)
    ensures Read8(s + rest) == Got(ch, |s|)
  {
    assert (s + rest)[..|s|] == s;
    assert IsLegal(s + rest, |s|) <==> IsLegal(s, |s|);
  }

  lemma TakesPiece8()
    ensures TakesPiece(Move8To32, Piece8, Utf32) && TakesPiece(Move8To16, Piece8, Utf16)
  {
    hide Read8, Utf16;
    forall s, ch, rest | Piece8(s, ch)
      ensures Read8(s + rest) == Got(ch, |s|)
    {
      PieceFront(s, ch, rest);
    }
  }

  /** A strict call from UTF-8 ends well exactly when its input is pieces that pass the check and
      their characters fit the target. */
  lemma EndsWellIff8(src: seq<bv8>, room: nat)
    ensures Convert(Move8To32, src, room, Strict, Ok).status == Ok
            <==> exists ps, chars :: FitsInPieces(Piece8, Utf32, src, room, ps, chars)
    ensures Convert(Move8To16, src, room, Strict, Ok).status == Ok
            <==> exists ps, chars :: FitsInPieces(Piece8, Utf16, src, room, ps, chars)
  {
    hide *;
    Faithful8();
    TakesPiece8();
    EndsWellInPieces(Move8To32, Piece8, Utf32, src, room);
    EndsWellInPieces(Move8To16, Piece8, Utf16, src, room);
  }

  predicate WellFormed(ps: seq<seq<bv8>>) {
    forall i :: 0 <= i < |ps| ==> Grammar(ps[i])
  }

  lemma WellFormedFirst(ps: seq<seq<bv8>>)
    requires ps != []
    ensures WellFormed(ps) <==> Grammar(ps[0]) && WellFormed(ps[1..])
  {
  }

  lemma SameParts<T>(a: seq<T>, b: seq<T>, c: seq<T>, d: seq<T>)
    requires |a| == |c|
    ensures a + b == c + d <==> a == c && b == d
  {
    assert (a + b)[..|a|] == a && (a + b)[|a|..] == b;
    assert (c + d)[..|c|] == c && (c + d)[|c|..] == d;
  }

  lemma {:induction false} BackIff8(ps: seq<seq<bv8>>, chars: seq<bv32>)
    requires Pieces(Piece8, ps, chars)
    ensures Scalars(chars) && |Encoded(Utf8, chars)| == |Joined(ps)|
    ensures Encoded(Utf8, chars) == Joined(ps) <==> WellFormed(ps)
  {
    hide Grammar, WellFormed, Decoded, Utf8, IsLegal, Scalar;
    if ps != [] {
      assert Piece8(ps[0], chars[0]);
      LegalDecodes(ps[0]);
      BackIff8(ps[1..], chars[1..]);
      SameParts(Utf8(chars[0]), Encoded(Utf8, chars[1..]), ps[0], Joined(ps[1..]));
      WellFormedFirst(ps);
    } else {
      NothingWellFormed();
    }
  }

  lemma NothingWellFormed()
    ensures WellFormed([])
  {
  }

  // ---- The first illegal value ----

  /** An outcome with n units taken and some written before it. */
  function Behind<T>(n: nat, units: seq<T>, r: Outcome<T>): Outcome<T> {
    Outcome(r.status, n + r.consumed, units + r.units)
  }

  lemma BehindBehind<T>(n: nat, a: seq<T>, m: nat, b: seq<T>, r: Outcome<T>)
    ensures Behind(n, a, Behind(m, b, r)) == Behind(n + m, a + b, r)
    ensures Behind(0, [], r) == r
  {
    assert a + (b + r.units) == a + b + r.units;
    assert [] + r.units == r.units;
  }

  /** A well-formed beginning is taken and written, and the call goes on with the rest. */
  lemma {:induction false} ConvertsPrefix<S(!new), T>(
    move: Mover<S, T>, dec: Coder<S>, enc: Coder<T>, chars: seq<bv32>, rest: seq<S>, room: nat, flags: Flags)
    requires Recodes(move, dec, enc) && Scalars(chars) && |Encoded(enc, chars)| <= room
    ensures Convert(move, Encoded(dec, chars) + rest, room, flags, Ok) ==
      Behind(|Encoded(dec, chars)|, Encoded(enc, chars), Convert(move, rest, room - |Encoded(enc, chars)|, flags, Ok))
    decreases |chars|
  {
    hide Convert, Behind;
    var src := Encoded(dec, chars) + rest;
    var r := Convert(move, rest, room - |Encoded(enc, chars)|, flags, Ok);
    if chars == [] {
      assert src == rest;
      BehindBehind(0, [], 0, [], r);
    } else {
      var ch, more := chars[0], Encoded(dec, chars[1..]) + rest;
      ConvertsFirst(move, dec, enc, ch, more, room, flags);
      assert src == dec(ch) + more;
      ConvertsPrefix(move, dec, enc, chars[1..], rest, room - |enc(ch)|, flags);
      BehindBehind(|dec(ch)|, enc(ch), |Encoded(dec, chars[1..])|, Encoded(enc, chars[1..]), r);
    }
  }

  lemma ConvertsFirst<S(!new), T>(
    move: Mover<S, T>, dec: Coder<S>, enc: Coder<T>, ch: bv32, more: seq<S>, room: nat, flags: Flags)
    requires Recodes(move, dec, enc) && Scalar(ch) && |enc(ch)| <= room
    ensures Convert(move, dec(ch) + more, room, flags, Ok) ==
      Behind(|dec(ch)|, enc(ch), Convert(move, more, room - |enc(ch)|, flags, Ok))
  {
    hide Convert;
    assert move(dec(ch) + more, room, flags) == Put(|dec(ch)|, enc(ch), room, false);
    ConvertOne(move, dec(ch) + more, room, flags, Ok, |dec(ch)|, enc(ch), false);
    assert (dec(ch) + more)[|dec(ch)|..] == more;
  }

  /** Position k holds the first value that is not a scalar value. */
  ghost predicate FirstIllegal(src: seq<bv32>, k: nat) {
    k < |src| && Scalars(src[..k]) && !Scalar(src[k])
  }

  lemma PrefixOf32<T>(move: Mover<bv32, T>, enc: Coder<T>, src: seq<bv32>, k: nat, room: nat)
    requires Recodes(move, Utf32, enc) && FirstIllegal(src, k) && |Encoded(enc, src[..k])| <= room
    ensures Convert(move, src, room, Strict, Ok) ==
      Behind(k, Encoded(enc, src[..k]), Convert(move, src[k..], room - |Encoded(enc, src[..k])|, Strict, Ok))
  {
    Encoded32(src[..k]);
    ConvertsPrefix(move, Utf32, enc, src[..k], src[k..], room, Strict);
    assert src[..k] + src[k..] == src;
  }

  /** With room for one unit more, a strict call stops at the first illegal value, having written
      what comes before, exactly when that value is a surrogate; any other it passes over. */
  lemma StopsIff32To16(src: seq<bv32>, k: nat, room: nat)
    requires FirstIllegal(src, k) && |Encoded(Utf16, src[..k])| < room
    ensures Convert(Move32To16, src, room, Strict, Ok) == Outcome(SourceIllegal, k, Encoded(Utf16, src[..k]))
            <==> Surrogate(src[k])
    ensures Surrogate(src[k]) || Convert(Move32To16, src, room, Strict, Ok).consumed > k
  {
    Recodes32To16();
    PrefixOf32(Move32To16, Utf16, src, k, room);
    var units := Encoded(Utf16, src[..k]);
    assert units + [] == units;
    if !Surrogate(src[k]) {
      ConvertOne(Move32To16, src[k..], room - |units|, Strict, Ok, 1, [], true);
    }
  }

  /** The same towards UTF-8, where what is passed over leaves a replacement character of three bytes. */
  lemma StopsIff32To8(src: seq<bv32>, k: nat, room: nat)
    requires FirstIllegal(src, k) && |Encoded(Utf8, src[..k])| < room
    ensures Convert(Move32To8, src, room, Strict, Ok) == Outcome(SourceIllegal, k, Encoded(Utf8, src[..k]))
            <==> Surrogate(src[k])
    ensures Surrogate(src[k]) || |Encoded(Utf8, src[..k])| + 3 > room
            || Convert(Move32To8, src, room, Strict, Ok).consumed > k
  {
    Recodes32To8();
    PrefixOf32(Move32To8, Utf8, src, k, room);
    var units, left := Encoded(Utf8, src[..k]), room - |Encoded(Utf8, src[..k])|;
    assert units + [] == units;
    assert |Utf8(REPLACEMENT)| == 3;
    if !Surrogate(src[k]) && left >= 3 {
      ConvertOne(Move32To8, src[k..], left, Strict, Ok, 1, Utf8(REPLACEMENT), true);
    }
  }

  /** A value past the last plane is passed over with nothing written for it, or with a replacement
      character. */
  lemma PastTheLastPlane()
    ensures Convert(Move32To16, [0x110000, 0x41], 2, Strict, Ok) == Outcome(SourceIllegal, 2, [0x41])
    ensures Convert(Move32To8, [0x110000, 0x41], 4, Strict, Ok) == Outcome(SourceIllegal, 2, Utf8(REPLACEMENT) + [0x41])
  {
  }

  /** Bytes that are not UTF-8 are accepted and become U+C040. */
  lemma SlippedExample()
    ensures !Grammar([0xED, 0x41, 0x80])
    ensures Convert(Move8To32, [0xED, 0x41, 0x80], 1, Strict, Ok) == Outcome(Ok, 3, [0xC040])
  {
  }
}
