/** The three encoding forms of Unicode (RFC 3629 sections 3 and 4, RFC 2781 section 2), and what
    demo/shared/linenoise-ng/ConvertUTF.cpp takes for one UTF-8 character. */
module Utf {
  const SUR_HIGH_START: bv32 := 0xD800
  const SUR_LOW_START: bv32 := 0xDC00
  const SUR_LOW_END: bv32 := 0xDFFF
  const MAX_BMP: bv32 := 0xFFFF
  const MAX_LEGAL: bv32 := 0x10FFFF
  const REPLACEMENT: bv32 := 0xFFFD
  const HALF_BASE: bv32 := 0x10000

  predicate Surrogate(ch: bv32) {
    SUR_HIGH_START <= ch <= SUR_LOW_END
  }

  /** Unicode scalar values: what the encoding forms encode. */
  predicate Scalar(ch: bv32) {
    ch <= MAX_LEGAL && !Surrogate(ch)
  }

  /** A following byte: its low six bits are the character's. */
  function Tail(ch: bv32): bv8 {
    (0x80 | (ch & 0x3F)) as bv8
  }

  /** The first byte tells how many follow. */
  function Lead2(ch: bv32): bv8
    requires ch < 0x800
  {
    (0xC0 | (ch >> 6)) as bv8
  }

  function Lead3(ch: bv32): bv8
    requires ch < 0x10000
  {
    (0xE0 | (ch >> 12)) as bv8
  }

  function Lead4(ch: bv32): bv8 {
    (0xF0 | ((ch >> 18) & 0x7)) as bv8
  }

  /** RFC 3629 section 3. */
  function Utf8(ch: bv32): seq<bv8> {
    if ch < 0x80 then [ch as bv8]
    else if ch < 0x800 then [Lead2(ch), Tail(ch)]
    else if ch < 0x10000 then [Lead3(ch), Tail(ch >> 6), Tail(ch)]
    else [Lead4(ch), Tail(ch >> 12), Tail(ch >> 6), Tail(ch)]
  }

  function HighHalf(u: bv32): bv16 {
    (SUR_HIGH_START | ((u >> 10) & 0x3FF)) as bv16
  }

  function LowHalf(u: bv32): bv16 {
    (SUR_LOW_START | (u & 0x3FF)) as bv16
  }

  /** RFC 2781 section 2.1. */
  function Utf16(ch: bv32): seq<bv16> {
    if ch < HALF_BASE then [ch as bv16] else [HighHalf(ch - HALF_BASE), LowHalf(ch - HALF_BASE)]
  }

  function Utf32(ch: bv32): seq<bv32> {
    [ch]
  }

  // ---- The tables ----

  /** trailingBytesForUTF8. */
  function Trailing(b: bv8): nat {
    if b < 0xC0 then 0 else if b < 0xE0 then 1 else if b < 0xF0 then 2
    else if b < 0xF8 then 3 else if b < 0xFC then 4 else 5
  }

  /** offsetsFromUTF8: what the marker bits of all the bytes add up to. */
  function Offset(extra: nat): bv32 {
    if extra == 0 then 0 else if extra == 1 then 0x3080 else if extra == 2 then 0xE2080 else 0x3C82080
  }

  /** One more byte, and a shift to make room for the next; the arithmetic wraps at 32 bits. */
  function Pushed(ch: bv32, b: bv8): bv32 {
    (ch + b as bv32) << 6
  }

  /** The last byte, and off with the marker bits. */
  function Closed(ch: bv32, b: bv8, extra: nat): bv32 {
    ch + b as bv32 - Offset(extra)
  }

  /** What the reading switch makes of two, three and four bytes. */
  function Char2(a: bv8, b: bv8): bv32 {
    Closed(Pushed(0, a), b, 1)
  }

  function Char3(a: bv8, b: bv8, c: bv8): bv32 {
    Closed(Pushed(Pushed(0, a), b), c, 2)
  }

  function Char4(a: bv8, b: bv8, c: bv8, d: bv8): bv32 {
    Closed(Pushed(Pushed(Pushed(0, a), b), c), d, 3)
  }

  function Decoded(s: seq<bv8>): bv32
    requires 1 <= |s| <= 4
  {
    if |s| == 1 then Closed(0, s[0], 0)
    else if |s| == 2 then Char2(s[0], s[1])
    else if |s| == 3 then Char3(s[0], s[1], s[2])
    else Char4(s[0], s[1], s[2], s[3])
  }

  /** isLegalUTF8 of the first length bytes. */
  predicate IsLegal(s: seq<bv8>, length: nat)
    requires 0 < length <= |s|
  {
    && length <= 4
    && (length >= 4 ==> 0x80 <= s[3] <= 0xBF)
    && (length >= 3 ==> 0x80 <= s[2] <= 0xBF)
    && (length >= 2 ==> s[1] <= 0xBF && SecondLegal(s[0], s[1]))
    && !(0x80 <= s[0] < 0xC2) && s[0] <= 0xF4
  }

  /** The inner switch on the first byte. */
  predicate SecondLegal(b: bv8, a: bv8) {
    if b == 0xE0 then a >= 0xA0
    else if b == 0xED then a <= 0x9F
    else if b == 0xF0 then a >= 0x90
    else if b == 0xF4 then a <= 0x8F
    else a >= 0x80
  }

  // ---- Well-formed bytes ----

  predicate IsTail(b: bv8) {
    0x80 <= b <= 0xBF
  }

  /** UTF8-char of RFC 3629 section 4. */
  predicate Grammar(s: seq<bv8>) {
    || (|s| == 1 && s[0] <= 0x7F)
    || (|s| == 2 && 0xC2 <= s[0] <= 0xDF && IsTail(s[1]))
    || (|s| == 3 && IsTail(s[2]) && IsTail(s[1]) && (s[0] == 0xE0 ==> s[1] >= 0xA0) && (s[0] == 0xED ==> s[1] <= 0x9F)
        && 0xE0 <= s[0] <= 0xEF)
    || (|s| == 4 && IsTail(s[2]) && IsTail(s[3]) && IsTail(s[1]) && (s[0] == 0xF0 ==> s[1] >= 0x90) && (s[0] == 0xF4 ==> s[1] <= 0x8F)
        && 0xF0 <= s[0] <= 0xF4)
  }

  /** What isLegalUTF8 lets through besides: after ED and F4 the lower bound of the second byte is not checked. */
  predicate Slipped(s: seq<bv8>) {
    || (|s| == 3 && s[0] == 0xED && s[1] < 0x80 && IsTail(s[2]))
    || (|s| == 4 && s[0] == 0xF4 && s[1] < 0x80 && IsTail(s[2]) && IsTail(s[3]))
  }

  /** The check as the converters make it, with the length the first byte tells. */
  lemma LegalIff(s: seq<bv8>)
    requires s != [] && |s| == Trailing(s[0]) + 1
    ensures IsLegal(s, |s|) <==> Grammar(s) || Slipped(s)
  {
  }

  // ---- One character there and back ----

  lemma Bits3(ch: bv32)
    requires 0x800 <= ch < 0x10000
    ensures var a, b, c := Lead3(ch), Tail(ch >> 6), Tail(ch);
      && Char3(a, b, c) == ch
      && 0xE0 <= a <= 0xEF && IsTail(b) && IsTail(c) && (a == 0xE0 ==> b >= 0xA0) && (a == 0xED && b > 0x9F ==> Surrogate(ch))
  {
  }

  lemma Bits4(ch: bv32)
    requires 0x10000 <= ch <= MAX_LEGAL
    ensures var a, b, c, d := Lead4(ch), Tail(ch >> 12), Tail(ch >> 6), Tail(ch);
      && Char4(a, b, c, d) == ch
      && 0xF0 <= a <= 0xF4 && IsTail(b) && IsTail(c) && IsTail(d) && (a == 0xF0 ==> b >= 0x90) && (a == 0xF4 ==> b <= 0x8F)
  {
  }

  lemma DecodedBytes(a: bv8, b: bv8, c: bv8, d: bv8)
    ensures Decoded([a]) == a as bv32
    ensures Decoded([a, b]) == Char2(a, b)
    ensures Decoded([a, b, c]) == Char3(a, b, c)
    ensures Decoded([a, b, c, d]) == Char4(a, b, c, d)
  {
  }

  predicate Returns(ch: bv32, s: seq<bv8>) {
    1 <= |s| <= 4 && Trailing(s[0]) + 1 == |s| && Grammar(s) && Decoded(s) == ch
  }

  lemma Returns1(ch: bv32)
    requires ch < 0x80
    ensures Returns(ch, [ch as bv8])
  {
  }

  lemma Returns2(ch: bv32)
    requires 0x80 <= ch < 0x800
    ensures Returns(ch, [Lead2(ch), Tail(ch)])
  {
  }

  lemma Returns3(ch: bv32)
    requires 0x800 <= ch < 0x10000 && !Surrogate(ch)
    ensures Returns(ch, [Lead3(ch), Tail(ch >> 6), Tail(ch)])
  {
    hide Tail, Lead3, Char3, Decoded;
    Bits3(ch);
    DecodedBytes(Lead3(ch), Tail(ch >> 6), Tail(ch), 0);
  }

  lemma Returns4(ch: bv32)
    requires 0x10000 <= ch <= MAX_LEGAL
    ensures Returns(ch, [Lead4(ch), Tail(ch >> 12), Tail(ch >> 6), Tail(ch)])
  {
    hide Tail, Lead4, Char4, Decoded;
    Bits4(ch);
    DecodedBytes(Lead4(ch), Tail(ch >> 12), Tail(ch >> 6), Tail(ch));
  }

  /** Every encoded character is well formed, its first byte tells its length, and it decodes to itself. */
  lemma Utf8RoundTrip(ch: bv32)
    requires Scalar(ch)
    ensures Returns(ch, Utf8(ch))
  {
    hide Tail, Lead2, Lead3, Lead4, Decoded, Grammar, Trailing;
    if ch < 0x80 {
      Returns1(ch);
    } else if ch < 0x800 {
      Returns2(ch);
    } else if ch < 0x10000 {
      Returns3(ch);
    } else {
      Returns4(ch);
    }
  }

  // The character of some bytes is a variable of its own in these, so that no term mixes its bits
  // with the bytes'.

  lemma Unbits2(a: bv8, b: bv8, ch: bv32)
    requires 0xC2 <= a <= 0xDF && IsTail(b) && ch == Char2(a, b)
    ensures 0x80 <= ch < 0x800 && Lead2(ch) == a && Tail(ch) == b
  {
  }

  lemma Unbits3Range(a: bv8, b: bv8, c: bv8, ch: bv32)
    requires 0xE0 <= a <= 0xEF && IsTail(b) && SecondLegal(a, b) && IsTail(c) && ch == Char3(a, b, c)
    ensures 0x800 <= ch < 0x10000 && Scalar(ch)
  {
  }

  lemma Unbits3(a: bv8, b: bv8, c: bv8, ch: bv32)
    requires 0xE0 <= a <= 0xEF && IsTail(b) && IsTail(c) && ch == Char3(a, b, c) && ch < 0x10000
    ensures Lead3(ch) == a && Tail(ch >> 6) == b && Tail(ch) == c
  {
  }

  lemma Unbits4Range(a: bv8, b: bv8, c: bv8, d: bv8, ch: bv32)
    requires 0xF0 <= a <= 0xF4 && IsTail(b) && SecondLegal(a, b) && IsTail(c) && IsTail(d) && ch == Char4(a, b, c, d)
    ensures 0x10000 <= ch && Scalar(ch)
  {
  }

  lemma Unbits4(a: bv8, b: bv8, c: bv8, d: bv8, ch: bv32)
    requires 0xF0 <= a <= 0xF4 && IsTail(b) && IsTail(c) && IsTail(d) && ch == Char4(a, b, c, d)
    ensures Lead4(ch) == a && Tail(ch >> 12) == b && Tail(ch >> 6) == c && Tail(ch) == d
  {
  }

  lemma Shape(ch: bv32)
    ensures 0x80 <= ch < 0x800 ==> Utf8(ch) == [Lead2(ch), Tail(ch)]
    ensures 0x800 <= ch < 0x10000 ==> Utf8(ch) == [Lead3(ch), Tail(ch >> 6), Tail(ch)]
    ensures 0x10000 <= ch ==> Utf8(ch) == [Lead4(ch), Tail(ch >> 12), Tail(ch >> 6), Tail(ch)]
  {
  }

  predicate Encodes(s: seq<bv8>) {
    1 <= |s| <= 4 && Scalar(Decoded(s)) && Utf8(Decoded(s)) == s
  }

  predicate Strays(s: seq<bv8>) {
    1 <= |s| <= 4 && Scalar(Decoded(s)) && Utf8(Decoded(s)) != s && |Utf8(Decoded(s))| == |s|
  }

  lemma Encodes1(a: bv8)
    requires a < 0x80
    ensures Encodes([a])
  {
  }

  lemma Assembled(ch: bv32, s: seq<bv8>)
    requires 1 <= |s| <= 4 && Scalar(ch) && Decoded(s) == ch && Utf8(ch) == s
    ensures Encodes(s)
  {
    hide Decoded, Utf8, Scalar;
  }

  lemma Encodes2(a: bv8, b: bv8)
    requires 0xC2 <= a <= 0xDF && IsTail(b)
    ensures Encodes([a, b])
  {
    var ch := Char2(a, b);
    hide *;
    Unbits2(a, b, ch);
    SmallScalar(ch);
    Shape(ch);
    DecodedBytes(a, b, 0, 0);
    Assembled(ch, [a, b]);
  }

  lemma SmallScalar(ch: bv32)
    requires ch < 0x800
    ensures Scalar(ch)
  {
  }

  lemma Encodes3(a: bv8, b: bv8, c: bv8)
    requires 0xE0 <= a <= 0xEF && IsTail(b) && SecondLegal(a, b) && IsTail(c)
    ensures Encodes([a, b, c])
  {
    var ch := Char3(a, b, c);
    hide *;
    Unbits3Range(a, b, c, ch);
    Unbits3(a, b, c, ch);
    Shape(ch);
    DecodedBytes(a, b, c, 0);
    Assembled(ch, [a, b, c]);
  }

  lemma Strays3(b: bv8, c: bv8)
    requires b < 0x80 && IsTail(c)
    ensures Strays([0xED, b, c])
  {
  }

  lemma Encodes4(a: bv8, b: bv8, c: bv8, d: bv8)
    requires 0xF0 <= a <= 0xF4 && IsTail(b) && SecondLegal(a, b) && IsTail(c) && IsTail(d)
    ensures Encodes([a, b, c, d])
  {
    var ch := Char4(a, b, c, d);
    hide *;
    Unbits4Range(a, b, c, d, ch);
    Unbits4(a, b, c, d, ch);
    Shape(ch);
    DecodedBytes(a, b, c, d);
    Assembled(ch, [a, b, c, d]);
  }

  lemma Strays4(b: bv8, c: bv8, d: bv8)
    requires b < 0x80 && IsTail(c) && IsTail(d)
    ensures Strays([0xF4, b, c, d])
  {
  }

  lemma GrammarEncodes(s: seq<bv8>)
    requires Grammar(s)
    ensures Encodes(s)
  {
    hide Encodes;
    if |s| == 1 {
      assert s == [s[0]];
      Encodes1(s[0]);
    } else if |s| == 2 {
      assert s == [s[0], s[1]];
      Encodes2(s[0], s[1]);
    } else if |s| == 3 {
      assert s == [s[0], s[1], s[2]];
      Encodes3(s[0], s[1], s[2]);
    } else {
      assert s == [s[0], s[1], s[2], s[3]];
      Encodes4(s[0], s[1], s[2], s[3]);
    }
  }

  lemma SlippedStrays(s: seq<bv8>)
    requires Slipped(s)
    ensures Strays(s)
  {
    hide Strays;
    if |s| == 3 {
      assert s == [0xED, s[1], s[2]];
      Strays3(s[1], s[2]);
    } else {
      assert s == [0xF4, s[1], s[2], s[3]];
      Strays4(s[1], s[2], s[3]);
    }
  }

  /** Bytes that pass the check give a scalar value, and the one they encode exactly when they are
      well formed: the tests for surrogates and for values past the last plane after decoding never
      find any. */
  lemma LegalDecodes(s: seq<bv8>)
    requires s != [] && |s| == Trailing(s[0]) + 1 && IsLegal(s, |s|)
    ensures Scalar(Decoded(s)) && (Utf8(Decoded(s)) == s <==> Grammar(s)) && |Utf8(Decoded(s))| == |s|
  {
    LegalIff(s);
    hide Scalar, Decoded, Utf8, Slipped;
    if Grammar(s) {
      GrammarEncodes(s);
    } else {
      SlippedStrays(s);
    }
  }

  /** The grammar describes exactly the encodings of scalar values. */
  lemma GrammarIff(s: seq<bv8>)
    ensures Grammar(s) <==> exists ch :: Scalar(ch) && Utf8(ch) == s
  {
    if Grammar(s) {
      GrammarEncodes(s);
    }
    forall ch | Scalar(ch) && Utf8(ch) == s
      ensures Grammar(s)
    {
      Utf8RoundTrip(ch);
    }
  }

  // ---- Surrogate pairs ----

  /** What the converters make of a pair. */
  function JoinPair(hi: bv16, lo: bv16): bv32 {
    ((hi as bv32 - SUR_HIGH_START) << 10) + (lo as bv32 - SUR_LOW_START) + HALF_BASE
  }

  predicate IsHigh(u: bv16) {
    0xD800 <= u <= 0xDBFF
  }

  predicate IsLow(u: bv16) {
    0xDC00 <= u <= 0xDFFF
  }

  lemma PairBits(ch: bv32)
    requires HALF_BASE <= ch <= MAX_LEGAL
    ensures IsHigh(Utf16(ch)[0]) && IsLow(Utf16(ch)[1]) && JoinPair(Utf16(ch)[0], Utf16(ch)[1]) == ch
  {
  }

  lemma PairOf(ch: bv32, hi: bv16, lo: bv16)
    requires HALF_BASE <= ch <= MAX_LEGAL && HighHalf(ch - HALF_BASE) == hi && LowHalf(ch - HALF_BASE) == lo
    ensures Scalar(ch) && Utf16(ch) == [hi, lo]
  {
    hide HighHalf, LowHalf;
  }

  /** Every pair is the two halves of one character. */
  lemma UnpairBits(hi: bv16, lo: bv16)
    requires IsHigh(hi) && IsLow(lo)
    ensures Scalar(JoinPair(hi, lo)) && Utf16(JoinPair(hi, lo)) == [hi, lo]
  {
    var ch := JoinPair(hi, lo);
    hide *;
    PairRange(hi, lo, ch);
    PairHigh(hi, lo, ch);
    PairLow(hi, lo, ch);
    PairOf(ch, hi, lo);
  }

  lemma PairRange(hi: bv16, lo: bv16, ch: bv32)
    requires IsHigh(hi) && IsLow(lo) && ch == JoinPair(hi, lo)
    ensures HALF_BASE <= ch <= MAX_LEGAL
  {
  }

  lemma PairHigh(hi: bv16, lo: bv16, ch: bv32)
    requires IsHigh(hi) && IsLow(lo) && ch == JoinPair(hi, lo)
    ensures HighHalf(ch - HALF_BASE) == hi
  {
  }

  lemma PairLow(hi: bv16, lo: bv16, ch: bv32)
    requires IsHigh(hi) && IsLow(lo) && ch == JoinPair(hi, lo)
    ensures LowHalf(ch - HALF_BASE) == lo
  {
  }

  /** Forms given as examples in RFC 3629 (section 7) and RFC 2781 (section 2.1), and the ends of the
      ranges of RFC 3629 (section 3). */
  lemma KnownForms()
    ensures Utf8(0x41) == [0x41] && Utf8(0x2262) == [0xE2, 0x89, 0xA2] && Utf8(0x391) == [0xCE, 0x91]
    ensures Utf8(0x233B4) == [0xF0, 0xA3, 0x8E, 0xB4]
    ensures Utf8(0x7F) == [0x7F] && Utf8(0x80) == [0xC2, 0x80] && Utf8(0x7FF) == [0xDF, 0xBF]
    ensures Utf8(0x800) == [0xE0, 0xA0, 0x80] && Utf8(0xFFFF) == [0xEF, 0xBF, 0xBF]
    ensures Utf8(0x10000) == [0xF0, 0x90, 0x80, 0x80] && Utf8(0x10FFFF) == [0xF4, 0x8F, 0xBF, 0xBF]
    ensures Utf16(0x12345) == [0xD808, 0xDF45] && Utf16(0x10000) == [0xD800, 0xDC00]
    ensures Utf16(0x10FFFF) == [0xDBFF, 0xDFFF] && Utf16(0xFFFF) == [0xFFFF]
  {
  }
}
