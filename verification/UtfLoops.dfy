/** The six loops of demo/shared/linenoise-ng/ConvertUTF.cpp, from a source of s units to a target
    array between start and end. */
module UtfLoops {
  import opened Utf
  import opened UtfConvert

  /** The loop has taken s units and written units; the rest of the call is the call on the rest. */
  ghost predicate Progress<S, T>(
    move: Mover<S, T>, source: seq<S>, room: nat, flags: Flags,
    s: nat, units: seq<T>, status: Status)
  {
    && s <= |source| && |units| <= room
    && var r := Convert(move, source[s..], room - |units|, flags, status);
       Convert(move, source, room, flags, Ok) == Outcome(r.status, s + r.consumed, units + r.units)
  }

  lemma Begin<S, T>(move: Mover<S, T>, source: seq<S>, room: nat, flags: Flags)
    ensures Progress(move, source, room, flags, 0, [], Ok)
  {
  }

  lemma Advance<S, T>(
    move: Mover<S, T>, source: seq<S>, room: nat, flags: Flags,
    s: nat, units: seq<T>, status: Status, n: nat, more: seq<T>, illegal: bool)
    requires Progress(move, source, room, flags, s, units, status)
    requires move(source[s..], room - |units|, flags) == Emit(n, more, illegal)
    requires 0 < n <= |source| - s && |more| <= room - |units|
    ensures Progress(move, source, room, flags, s + n, units + more, if illegal then SourceIllegal else status)
  {
  }

  lemma Stop<S, T>(
    move: Mover<S, T>, source: seq<S>, room: nat, flags: Flags,
    s: nat, units: seq<T>, status: Status, st: Status)
    requires Progress(move, source, room, flags, s, units, status)
    requires move(source[s..], room - |units|, flags) == Halt(st)
    ensures Convert(move, source, room, flags, Ok) == Outcome(if s == |source| then status else st, s, units)
  {
  }

  /** The target now holds units from start on, and otherwise what it held. */
  ghost predicate Holds<T>(now: seq<T>, was: seq<T>, start: nat, units: seq<T>) {
    start + |units| <= |was| && now == was[..start] + units + was[start + |units|..]
  }

  lemma HoldsNothing<T>(was: seq<T>, start: nat)
    requires start <= |was|
    ensures Holds(was, was, start, [])
  {
  }

  lemma HoldsMore<T>(now: seq<T>, before: seq<T>, was: seq<T>, start: nat, units: seq<T>, more: seq<T>)
    requires Holds(before, was, start, units) && Holds(now, before, start + |units|, more)
    ensures Holds(now, was, start, units + more)
  {
  }

  /** How a call leaves its target: the units written at the front of the range, the rest as it was. */
  lemma HoldsRange<T>(now: seq<T>, was: seq<T>, start: nat, units: seq<T>)
    requires Holds(now, was, start, units)
    ensures |now| == |was| && now[..start] == was[..start] && now[start..start + |units|] == units
    ensures now[start + |units|..] == was[start + |units|..]
  {
  }

  method PutUnit<T>(target: array<T>, t: nat, x: T) returns (next: nat)
    requires t < target.Length
    modifies target
    ensures Holds(target[..], old(target[..]), t, [x]) && next == t + 1
  {
    target[t] := x;
    next := t + 1;
  }

  /** The two halves of a character past the first plane. */
  method PutPair(target: array<bv16>, t: nat, ch: bv32) returns (next: nat)
    requires MAX_BMP < ch <= MAX_LEGAL && t + 2 <= target.Length
    modifies target
    ensures Holds(target[..], old(target[..]), t, Utf16(ch)) && next == t + 2
  {
    hide HighHalf, LowHalf;
    var c := ch - HALF_BASE;
    HalfUnits(c);
    target[t] := ((c >> 10) + SUR_HIGH_START) as bv16;
    target[t + 1] := ((c & 0x3FF) + SUR_LOW_START) as bv16;
    next := t + 2;
  }

  lemma HalfUnits(c: bv32)
    requires c <= 0xFFFFF
    ensures (c >> 10) + SUR_HIGH_START <= 0xFFFF && ((c >> 10) + SUR_HIGH_START) as bv16 == HighHalf(c)
    ensures (c & 0x3FF) + SUR_LOW_START <= 0xFFFF && ((c & 0x3FF) + SUR_LOW_START) as bv16 == LowHalf(c)
  {
  }

  lemma UnitCount(ch: bv32)
    ensures |Utf16(ch)| == if ch <= MAX_BMP then 1 else 2
    ensures ch <= MAX_BMP ==> Utf16(ch) == [ch as bv16]
  {
  }

  /** One unit, or two if there is room for them. */
  method PutUtf16(target: array<bv16>, t: nat, end: nat, ch: bv32) returns (ok: bool, next: nat)
    requires ch <= MAX_LEGAL && t < end <= target.Length
    modifies target
    ensures ok <==> |Utf16(ch)| <= end - t
    ensures if ok then Holds(target[..], old(target[..]), t, Utf16(ch)) && next == t + |Utf16(ch)|
            else target[..] == old(target[..]) && next == t
  {
    hide Holds, Utf16;
    UnitCount(ch);
    if ch <= MAX_BMP {
      next := PutUnit(target, t, ch as bv16);
      return true, next;
    }
    if t + 1 >= end {
      return false, t;
    }
    next := PutPair(target, t, ch);
    ok := true;
  }

  /** What Move32To16 does with the unit at position s. */
  lemma Move32To16At(source: seq<bv32>, s: nat, room: nat, flags: Flags)
    requires s <= |source|
    ensures var m := Move32To16(source[s..], room, flags);
      if s == |source| then m == Halt(Ok)
      else if room == 0 then m == Halt(TargetExhausted)
      else if Surrogate(source[s]) then
        m == if flags == Strict then Halt(SourceIllegal) else Emit(1, [REPLACEMENT as bv16], false)
      else if source[s] > MAX_LEGAL then
        m == if flags == Strict then Emit(1, [], true) else Emit(1, [REPLACEMENT as bv16], false)
      else m == if |Utf16(source[s])| > room then Halt(TargetExhausted) else Emit(1, Utf16(source[s]), false)
  {
  }

  method ConvertUTF32toUTF16(source: seq<bv32>, target: array<bv16>, start: nat, end: nat, flags: Flags)
    returns (status: Status, s: nat, t: nat)
    requires start <= end <= target.Length
    modifies target
    ensures start <= t <= end
    ensures Outcome(status, s, target[start..t]) == Convert(Move32To16, source, end - start, flags, Ok)
    ensures target[..start] == old(target[..start]) && target[t..] == old(target[t..])
  {
    hide Convert, Utf16, Progress, Holds, Surrogate, Move32To16;
    status, s, t := Ok, 0, start;
    ghost var room, was, units: seq<bv16> := end - start, target[..], [];
    Begin(Move32To16, source, room, flags);
    HoldsNothing(was, start);
    while s < |source|
      invariant s <= |source| && t == start + |units| <= end && Holds(target[..], was, start, units)
      invariant Progress(Move32To16, source, room, flags, s, units, status)
    {
      Move32To16At(source, s, end - t, flags);
      if t >= end {
        Stop(Move32To16, source, room, flags, s, units, status, TargetExhausted);
        status := TargetExhausted;
        break;
      }
      ghost var s0, was0, more, illegal := s, status, [], false;
      ghost var before := target[..];
      var ch := source[s];
      s := s + 1;
      if Surrogate(ch) {
        if flags == Strict {
          s := s - 1;
          Stop(Move32To16, source, room, flags, s, units, status, SourceIllegal);
          status := SourceIllegal;
          break;
        }
        t := PutUnit(target, t, REPLACEMENT as bv16);
        more := [REPLACEMENT as bv16];
      } else if ch > MAX_LEGAL {
        if flags == Strict {
          status := SourceIllegal;
          HoldsNothing(before, t);
          illegal := true;
        } else {
          t := PutUnit(target, t, REPLACEMENT as bv16);
          more := [REPLACEMENT as bv16];
        }
      } else {
        var ok;
        ok, t := PutUtf16(target, t, end, ch);
        if !ok {
          s := s - 1;
          Stop(Move32To16, source, room, flags, s, units, status, TargetExhausted);
          status := TargetExhausted;
          break;
        }
        more := Utf16(ch);
      }
      Advance(Move32To16, source, room, flags, s0, units, was0, 1, more, illegal);
      HoldsMore(target[..], before, was, start, units, more);
      units := units + more;
    }
    if s == |source| {
      Move32To16At(source, s, room - |units|, flags);
      Stop(Move32To16, source, room, flags, s, units, status, Ok);
    }
    HoldsRange(target[..], was, start, units);
  }

  /** How many bytes a character takes. */
  function ByteCount(ch: bv32): (n: nat)
    ensures n == |Utf8(ch)|
  {
    if ch < 0x80 then 1 else if ch < 0x800 then 2 else if ch < 0x10000 then 3 else 4
  }

  /** firstByteMark. */
  function FirstByteMark(n: nat): bv32 {
    if n == 2 then 0xC0 else if n == 3 then 0xE0 else if n == 4 then 0xF0 else 0
  }

  /** The first byte, from what is left of the character; the cast keeps eight bits. */
  function FirstByte(c: bv32, n: nat): bv8 {
    ((c | FirstByteMark(n)) & 0xFF) as bv8
  }

  function Shifted(c: bv32): bv32 {
    c >> 6
  }

  /** The bytes as the code makes them, shifting as it goes. */
  function Bytes(ch: bv32): seq<bv8> {
    var n := ByteCount(ch);
    if n == 1 then [FirstByte(ch, 1)]
    else if n == 2 then [FirstByte(Shifted(ch), 2), Tail(ch)]
    else if n == 3 then [FirstByte(Shifted(Shifted(ch)), 3), Tail(Shifted(ch)), Tail(ch)]
    else [FirstByte(Shifted(Shifted(Shifted(ch))), 4), Tail(Shifted(Shifted(ch))), Tail(Shifted(ch)), Tail(ch)]
  }

  lemma BytesAreUtf8(ch: bv32)
    requires ch <= MAX_LEGAL
    ensures Bytes(ch) == Utf8(ch)
  {
  }

  /** One byte from the low six bits. */
  method PutTail(target: array<bv8>, p: nat, c: bv32) returns (previous: nat, rest: bv32)
    requires 0 < p <= target.Length
    modifies target
    ensures target[..] == old(target[..])[p - 1 := Tail(c)] && previous == p - 1 && rest == Shifted(c)
  {
    TailBits(c);
    previous := p - 1;
    target[previous] := ((c | 0x80) & 0xBF) as bv8;
    rest := c >> 6;
  }

  lemma TailBits(c: bv32)
    ensures (c | 0x80) & 0xBF <= 0xFF && ((c | 0x80) & 0xBF) as bv8 == Tail(c)
  {
  }

  /** The bytes of a character, the last one first. */
  method PutBytes(target: array<bv8>, t: nat, ch: bv32) returns (next: nat)
    requires ch <= MAX_LEGAL && t + ByteCount(ch) <= target.Length
    modifies target
    ensures Holds(target[..], old(target[..]), t, Utf8(ch)) && next == t + ByteCount(ch)
  {
    BytesAreUtf8(ch);
    hide Tail, Shifted, FirstByte, ByteCount, Utf8;
    var n := ByteCount(ch);
    next := t + n;
    var p, c := next, ch;
    if n >= 4 {
      p, c := PutTail(target, p, c);
    }
    if n >= 3 {
      p, c := PutTail(target, p, c);
    }
    if n >= 2 {
      p, c := PutTail(target, p, c);
    }
    p := p - 1;
    target[p] := FirstByte(c, n);
  }

  method ConvertUTF32toUTF8(source: seq<bv32>, target: array<bv8>, start: nat, end: nat, flags: Flags)
    returns (status: Status, s: nat, t: nat)
    requires start <= end <= target.Length
    modifies target
    ensures start <= t <= end
    ensures Outcome(status, s, target[start..t]) == Convert(Move32To8, source, end - start, flags, Ok)
    ensures target[..start] == old(target[..start]) && target[t..] == old(target[t..])
  {
    hide Convert, Utf16, Utf8, ByteCount, Progress, Holds;
    status, s, t := Ok, 0, start;
    ghost var room, was, units: seq<bv8> := end - start, target[..], [];
    Begin(Move32To8, source, room, flags);
    HoldsNothing(was, start);
    while s < |source|
      invariant s <= |source| && t == start + |units| <= end && Holds(target[..], was, start, units)
      invariant Progress(Move32To8, source, room, flags, s, units, status)
    {
      ghost var s0, was0, before := s, status, target[..];
      var ch := source[s];
      s := s + 1;
      if flags == Strict {
        if Surrogate(ch) {
          s := s - 1;
          Stop(Move32To8, source, room, flags, s, units, status, SourceIllegal);
          status := SourceIllegal;
          break;
        }
      }
      ghost var illegal := ch > MAX_LEGAL;
      if ch > MAX_LEGAL {
        ch := REPLACEMENT;
        status := SourceIllegal;
      }
      var n := ByteCount(ch);
      if t + n > end {
        s := s - 1;
        Stop(Move32To8, source, room, flags, s, units, was0, TargetExhausted);
        status := TargetExhausted;
        break;
      }
      t := PutBytes(target, t, ch);
      Advance(Move32To8, source, room, flags, s0, units, was0, 1, Utf8(ch), illegal);
      HoldsMore(target[..], before, was, start, units, Utf8(ch));
      units := units + Utf8(ch);
    }
    if s == |source| {
      Stop(Move32To8, source, room, flags, s, units, status, Ok);
    }
    HoldsRange(target[..], was, start, units);
  }

  /** The character at s, as the two converters from UTF-16 read it. */
  method NextUtf16(source: seq<bv16>, s: nat, flags: Flags) returns (r: Read)
    requires s < |source|
    ensures r == Read16(source[s..], flags)
    ensures r.Got? ==> 0 < r.n <= |source| - s && r.ch <= MAX_LEGAL
  {
    var ch := source[s];
    if IsHigh(ch) {
      if s + 1 < |source| {
        var ch2 := source[s + 1];
        if IsLow(ch2) {
          PairRange(ch, ch2, JoinPair(ch, ch2));
          return Got(JoinPair(ch, ch2), 2);
        } else if flags == Strict {
          return Fail(SourceIllegal);
        }
      } else {
        return Fail(SourceExhausted);
      }
    } else if flags == Strict {
      if IsLow(ch) {
        return Fail(SourceIllegal);
      }
    }
    r := Got(ch as bv32, 1);
  }

  /** The reading switch: it enters at the number of bytes that follow and falls through. */
  method ReadBytes(source: seq<bv8>, s: nat, extra: nat) returns (ch: bv32)
    requires extra <= 3 && s + extra < |source|
    ensures ch == Decoded(source[s..s + extra + 1])
  {
    hide Pushed, Closed;
    ch := 0;
    var p := s;
    if extra >= 3 {
      ch := Pushed(ch, source[p]);
      p := p + 1;
    }
    if extra >= 2 {
      ch := Pushed(ch, source[p]);
      p := p + 1;
    }
    if extra >= 1 {
      ch := Pushed(ch, source[p]);
      p := p + 1;
    }
    ch := Closed(ch, source[p], extra);
  }

  /** The character at s, as the two converters from UTF-8 read it, falling through its switch. */
  method NextUtf8(source: seq<bv8>, s: nat) returns (r: Read)
    requires s < |source|
    ensures r == Read8(source[s..])
    ensures r.Got? ==> 0 < r.n <= |source| - s && Scalar(r.ch)
  {
    var extra := Trailing(source[s]);
    if s + extra >= |source| {
      return Fail(SourceExhausted);
    }
    if !IsLegal(source[s..], extra + 1) {
      return Fail(SourceIllegal);
    }
    Read8Piece(source[s..]);
    LegalDecodes(source[s..][..extra + 1]);
    var ch := ReadBytes(source, s, extra);
    assert source[s..][..extra + 1] == source[s..s + extra + 1];
    r := Got(ch, extra + 1);
  }

  method ConvertUTF16toUTF32(source: seq<bv16>, target: array<bv32>, start: nat, end: nat, flags: Flags)
    returns (status: Status, s: nat, t: nat)
    requires start <= end <= target.Length
    modifies target
    ensures start <= t <= end
    ensures Outcome(status, s, target[start..t]) == Convert(Move16To32, source, end - start, flags, Ok)
    ensures target[..start] == old(target[..start]) && target[t..] == old(target[t..])
  {
    hide Convert, Utf16, Utf8, ByteCount, Progress, Holds, Read16;
    status, s, t := Ok, 0, start;
    ghost var room, was, units: seq<bv32> := end - start, target[..], [];
    Begin(Move16To32, source, room, flags);
    HoldsNothing(was, start);
    while s < |source|
      invariant s <= |source| && t == start + |units| <= end && Holds(target[..], was, start, units)
      invariant Progress(Move16To32, source, room, flags, s, units, status)
    {
      ghost var before := target[..];
      var r := NextUtf16(source, s, flags);
      if r.Fail? {
        Stop(Move16To32, source, room, flags, s, units, status, r.status);
        status := r.status;
        break;
      }
      if t >= end {
        Stop(Move16To32, source, room, flags, s, units, status, TargetExhausted);
        status := TargetExhausted;
        break;
      }
      t := PutUnit(target, t, r.ch);
      Advance(Move16To32, source, room, flags, s, units, status, r.n, Utf32(r.ch), false);
      HoldsMore(target[..], before, was, start, units, Utf32(r.ch));
      units := units + Utf32(r.ch);
      s := s + r.n;
    }
    if s == |source| {
      Stop(Move16To32, source, room, flags, s, units, status, Ok);
    }
    HoldsRange(target[..], was, start, units);
  }

  method ConvertUTF16toUTF8(source: seq<bv16>, target: array<bv8>, start: nat, end: nat, flags: Flags)
    returns (status: Status, s: nat, t: nat)
    requires start <= end <= target.Length
    modifies target
    ensures start <= t <= end
    ensures Outcome(status, s, target[start..t]) == Convert(Move16To8, source, end - start, flags, Ok)
    ensures target[..start] == old(target[..start]) && target[t..] == old(target[t..])
  {
    hide Convert, Utf16, Utf8, ByteCount, Progress, Holds, Read16;
    status, s, t := Ok, 0, start;
    ghost var room, was, units: seq<bv8> := end - start, target[..], [];
    Begin(Move16To8, source, room, flags);
    HoldsNothing(was, start);
    while s < |source|
      invariant s <= |source| && t == start + |units| <= end && Holds(target[..], was, start, units)
      invariant Progress(Move16To8, source, room, flags, s, units, status)
    {
      ghost var before := target[..];
      var r := NextUtf16(source, s, flags);
      if r.Fail? {
        Stop(Move16To8, source, room, flags, s, units, status, r.status);
        status := r.status;
        break;
      }
      if t + ByteCount(r.ch) > end {
        Stop(Move16To8, source, room, flags, s, units, status, TargetExhausted);
        status := TargetExhausted;
        break;
      }
      t := PutBytes(target, t, r.ch);
      Advance(Move16To8, source, room, flags, s, units, status, r.n, Utf8(r.ch), false);
      HoldsMore(target[..], before, was, start, units, Utf8(r.ch));
      units := units + Utf8(r.ch);
      s := s + r.n;
    }
    if s == |source| {
      Stop(Move16To8, source, room, flags, s, units, status, Ok);
    }
    HoldsRange(target[..], was, start, units);
  }

  method ConvertUTF8toUTF32(source: seq<bv8>, target: array<bv32>, start: nat, end: nat, flags: Flags)
    returns (status: Status, s: nat, t: nat)
    requires start <= end <= target.Length
    modifies target
    ensures start <= t <= end
    ensures Outcome(status, s, target[start..t]) == Convert(Move8To32, source, end - start, flags, Ok)
    ensures target[..start] == old(target[..start]) && target[t..] == old(target[t..])
  {
    hide Convert, Utf16, Utf8, ByteCount, Progress, Holds, Read8;
    status, s, t := Ok, 0, start;
    ghost var room, was, units: seq<bv32> := end - start, target[..], [];
    Begin(Move8To32, source, room, flags);
    HoldsNothing(was, start);
    while s < |source|
      invariant s <= |source| && t == start + |units| <= end && Holds(target[..], was, start, units)
      invariant Progress(Move8To32, source, room, flags, s, units, status)
    {
      ghost var before := target[..];
      var r := NextUtf8(source, s);
      if r.Fail? {
        Stop(Move8To32, source, room, flags, s, units, status, r.status);
        status := r.status;
        break;
      }
      if t >= end {
        Stop(Move8To32, source, room, flags, s, units, status, TargetExhausted);
        status := TargetExhausted;
        break;
      }
      if Surrogate(r.ch) || r.ch > MAX_LEGAL {
        assert false;
      }
      t := PutUnit(target, t, r.ch);
      Advance(Move8To32, source, room, flags, s, units, status, r.n, Utf32(r.ch), false);
      HoldsMore(target[..], before, was, start, units, Utf32(r.ch));
      units := units + Utf32(r.ch);
      s := s + r.n;
    }
    if s == |source| {
      Stop(Move8To32, source, room, flags, s, units, status, Ok);
    }
    HoldsRange(target[..], was, start, units);
  }

  method ConvertUTF8toUTF16(source: seq<bv8>, target: array<bv16>, start: nat, end: nat, flags: Flags)
    returns (status: Status, s: nat, t: nat)
    requires start <= end <= target.Length
    modifies target
    ensures start <= t <= end
    ensures Outcome(status, s, target[start..t]) == Convert(Move8To16, source, end - start, flags, Ok)
    ensures target[..start] == old(target[..start]) && target[t..] == old(target[t..])
  {
    hide Convert, Utf16, Utf8, ByteCount, Progress, Holds, Read8;
    status, s, t := Ok, 0, start;
    ghost var room, was, units: seq<bv16> := end - start, target[..], [];
    Begin(Move8To16, source, room, flags);
    HoldsNothing(was, start);
    while s < |source|
      invariant s <= |source| && t == start + |units| <= end && Holds(target[..], was, start, units)
      invariant Progress(Move8To16, source, room, flags, s, units, status)
    {
      ghost var before := target[..];
      var r := NextUtf8(source, s);
      if r.Fail? {
        Stop(Move8To16, source, room, flags, s, units, status, r.status);
        status := r.status;
        break;
      }
      UnitCount(r.ch);
      if t >= end {
        Stop(Move8To16, source, room, flags, s, units, status, TargetExhausted);
        status := TargetExhausted;
        break;
      }
      if Surrogate(r.ch) || r.ch > MAX_LEGAL {
        assert false;
      }
      var ok;
      ok, t := PutUtf16(target, t, end, r.ch);
      if !ok {
        Stop(Move8To16, source, room, flags, s, units, status, TargetExhausted);
        status := TargetExhausted;
        break;
      }
      Advance(Move8To16, source, room, flags, s, units, status, r.n, Utf16(r.ch), false);
      HoldsMore(target[..], before, was, start, units, Utf16(r.ch));
      units := units + Utf16(r.ch);
      s := s + r.n;
    }
    if s == |source| {
      Stop(Move8To16, source, room, flags, s, units, status, Ok);
    }
    HoldsRange(target[..], was, start, units);
  }
}
