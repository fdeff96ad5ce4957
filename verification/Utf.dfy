/** UTF-8 (section 3 of RFC 3629) and UTF-16 (section 2.1 of RFC 2781) encoders, and decoders to judge them by. */
module Utf {
  import opened Bytes
  import opened Sequences

  type unit = bv16
  type codepoint = bv32

  const UNICODE_MAX: codepoint := 0x10FFFF

  predicate AreCodePoints(cs: seq<codepoint>) {
    forall i :: 0 <= i < |cs| ==> cs[i] <= UNICODE_MAX
  }

  // ---------- encoders ----------

  function Lead2(ch: codepoint): byte
    requires ch < 0x800
  {
    (0xC0 | (ch >> 6)) as byte
  }

  function Lead3(ch: codepoint): byte
    requires ch < 0x10000
  {
    (0xE0 | (ch >> 12)) as byte
  }

  function Lead4(ch: codepoint): byte
    requires ch <= UNICODE_MAX
  {
    (0xF0 | (ch >> 18)) as byte
  }

  /** Six bits of a code point as a continuation byte, counted from the low end. */
  function Trail0(ch: codepoint): byte { (0x80 | (ch & 0x3F)) as byte }

  function Trail1(ch: codepoint): byte { (0x80 | ((ch >> 6) & 0x3F)) as byte }

  function Trail2(ch: codepoint): byte { (0x80 | ((ch >> 12) & 0x3F)) as byte }

  function Utf8(ch: codepoint): (e: seq<byte>)
    requires ch <= UNICODE_MAX
    ensures 1 <= |e| <= 4
  {
    if ch < 0x80 then [ch as byte]
    else if ch < 0x800 then [Lead2(ch), Trail0(ch)]
    else if ch < 0x10000 then [Lead3(ch), Trail1(ch), Trail0(ch)]
    else [Lead4(ch), Trail2(ch), Trail1(ch), Trail0(ch)]
  }

  function HighHalf(offset: codepoint): unit
    requires offset <= 0xFFFFF
  {
    (0xD800 | (offset >> 10)) as unit
  }

  function High(ch: codepoint): unit
    requires 0x10000 <= ch <= UNICODE_MAX
  {
    HighHalf(ch - 0x10000)
  }

  function Low(ch: codepoint): unit {
    (0xDC00 | (ch & 0x3FF)) as unit
  }

  function Single(ch: codepoint): unit
    requires ch < 0x10000
  {
    ch as unit
  }

  function Utf16(ch: codepoint): (e: seq<unit>)
    requires ch <= UNICODE_MAX
    ensures 1 <= |e| <= 2
  {
    if ch < 0x10000 then [Single(ch)] else [High(ch), Low(ch)]
  }

  method ToUtf8(ch: codepoint, result: Text<byte>) returns (ok: bool)
    modifies result
    ensures ok <==> ch <= 0x10FFFF
    ensures result.units == if ch <= 0x10FFFF then old(result.units) + Utf8(ch) else old(result.units)
  {
    if ch > UNICODE_MAX {
      return false;
    }
    if ch < 0x80 {
      result.units := result.units + [ch as byte];
    } else if ch < 0x800 {
      result.units := result.units + [(0xC0 | (ch >> 6)) as byte];
      result.units := result.units + [(0x80 | (ch & 0x3F)) as byte];
    } else if ch < 0x10000 {
      result.units := result.units + [(0xE0 | (ch >> 12)) as byte];
      result.units := result.units + [(0x80 | ((ch >> 6) & 0x3F)) as byte];
      result.units := result.units + [(0x80 | (ch & 0x3F)) as byte];
    } else {
      result.units := result.units + [(0xF0 | (ch >> 18)) as byte];
      result.units := result.units + [(0x80 | ((ch >> 12) & 0x3F)) as byte];
      result.units := result.units + [(0x80 | ((ch >> 6) & 0x3F)) as byte];
      result.units := result.units + [(0x80 | (ch & 0x3F)) as byte];
    }
    return true;
  }

  method ToUtf16(ch: codepoint, result: Text<unit>) returns (ok: bool)
    modifies result
    ensures ok <==> ch <= 0x10FFFF
    ensures result.units == if ch <= 0x10FFFF then old(result.units) + Utf16(ch) else old(result.units)
  {
    if ch > UNICODE_MAX {
      return false;
    }
    if ch < 0x10000 {
      result.units := result.units + [ch as unit];
    } else {
      var first := (0xD800 | ((ch - 0x10000) >> 10)) as unit;
      var second := (0xDC00 | (ch & 0x3FF)) as unit;
      result.units := result.units + [first];
      result.units := result.units + [second];
    }
    return true;
  }

  /** The encoding of a whole sequence of code points. */
  function Utf8All(cs: seq<codepoint>): seq<byte>
    requires AreCodePoints(cs)
  {
    if cs == [] then [] else Utf8(cs[0]) + Utf8All(cs[1..])
  }

  function Utf16All(cs: seq<codepoint>): seq<unit>
    requires AreCodePoints(cs)
  {
    if cs == [] then [] else Utf16(cs[0]) + Utf16All(cs[1..])
  }

  // ---------- UTF-8 read back ----------

  predicate IsContinuation(b: byte) {
    b & 0xC0 == 0x80
  }

  /** The number of bytes a lead byte announces in the encodings of code points. */
  function LeadLength(b: byte): nat {
    if b < 0x80 then 1 else if b < 0xE0 then 2 else if b < 0xF0 then 3 else 4
  }

  function Join2(b0: byte, b1: byte): codepoint {
    ((b0 & 0x1F) as codepoint << 6) | (b1 & 0x3F) as codepoint
  }

  function Join3(b0: byte, b1: byte, b2: byte): codepoint {
    ((b0 & 0x0F) as codepoint << 12) | ((b1 & 0x3F) as codepoint << 6) | (b2 & 0x3F) as codepoint
  }

  function Join4(b0: byte, b1: byte, b2: byte, b3: byte): codepoint {
    ((b0 & 0x07) as codepoint << 18) | ((b1 & 0x3F) as codepoint << 12)
    | ((b2 & 0x3F) as codepoint << 6) | (b3 & 0x3F) as codepoint
  }

  /** The code point whose bits a unit of one to four bytes carries. */
  function Payload(u: seq<byte>): codepoint
    requires 1 <= |u| <= 4
  {
    if |u| == 1 then u[0] as codepoint
    else if |u| == 2 then Join2(u[0], u[1])
    else if |u| == 3 then Join3(u[0], u[1], u[2])
    else Join4(u[0], u[1], u[2], u[3])
  }

  /** Reads code points off the front by their lead bytes; stops at a unit that is cut short. */
  function Decode8(s: seq<byte>): seq<codepoint> {
    if s == [] || LeadLength(s[0]) > |s| then []
    else [Payload(s[..LeadLength(s[0])])] + Decode8(s[LeadLength(s[0])..])
  }

  lemma OneByteBits(ch: codepoint)
    requires ch < 0x80
    ensures LeadLength(ch as byte) == 1 && (ch as byte) as codepoint == ch
  {
  }

  lemma TwoByteBits(ch: codepoint)
    requires 0x80 <= ch < 0x800
    ensures LeadLength(Lead2(ch)) == 2 && IsContinuation(Trail0(ch))
    ensures Join2(Lead2(ch), Trail0(ch)) == ch
  {
  }

  lemma ThreeByteBits(ch: codepoint)
    requires 0x800 <= ch < 0x10000
    ensures LeadLength(Lead3(ch)) == 3 && IsContinuation(Trail1(ch)) && IsContinuation(Trail0(ch))
    ensures Join3(Lead3(ch), Trail1(ch), Trail0(ch)) == ch
  {
  }

  lemma FourByteBits(ch: codepoint)
    requires 0x10000 <= ch <= UNICODE_MAX
    ensures LeadLength(Lead4(ch)) == 4
    ensures IsContinuation(Trail2(ch)) && IsContinuation(Trail1(ch)) && IsContinuation(Trail0(ch))
    ensures Join4(Lead4(ch), Trail2(ch), Trail1(ch), Trail0(ch)) == ch
  {
  }

  lemma Utf8Unit(ch: codepoint)
    requires ch <= UNICODE_MAX
    ensures LeadLength(Utf8(ch)[0]) == |Utf8(ch)|
    ensures forall i :: 1 <= i < |Utf8(ch)| ==> IsContinuation(Utf8(ch)[i])
    ensures Payload(Utf8(ch)) == ch
  {
    hide IsContinuation, LeadLength, Lead2, Lead3, Lead4, Trail0, Trail1, Trail2, Join2, Join3, Join4;
    if ch < 0x80 {
      OneByteBits(ch);
    } else if ch < 0x800 {
      TwoByteBits(ch);
    } else if ch < 0x10000 {
      ThreeByteBits(ch);
    } else {
      FourByteBits(ch);
    }
  }

  /** UTF-8 output determines the code points it was made from. */
  lemma {:induction false} Decode8Utf8All(cs: seq<codepoint>)
    requires AreCodePoints(cs)
    ensures Decode8(Utf8All(cs)) == cs
  {
    hide Utf8, Payload, LeadLength;
    if cs != [] {
      Utf8Unit(cs[0]);
      Decode8Utf8All(cs[1..]);
      var u, rest := Utf8(cs[0]), Utf8All(cs[1..]);
      assert (u + rest)[0] == u[0] && (u + rest)[..|u|] == u && (u + rest)[|u|..] == rest;
    }
  }

  /** The well-formed byte sequences of section 4 of RFC 3629. */
  predicate WellFormed(u: seq<byte>) {
    (|u| == 1 && u[0] <= 0x7F)
    || (|u| == 2 && 0xC2 <= u[0] <= 0xDF && IsContinuation(u[1]))
    || (|u| == 3 && IsContinuation(u[1]) && IsContinuation(u[2])
        && ((u[0] == 0xE0 && u[1] >= 0xA0) || 0xE1 <= u[0] <= 0xEC
            || (u[0] == 0xED && u[1] <= 0x9F) || 0xEE <= u[0] <= 0xEF))
    || (|u| == 4 && IsContinuation(u[1]) && IsContinuation(u[2]) && IsContinuation(u[3])
        && ((u[0] == 0xF0 && u[1] >= 0x90) || 0xF1 <= u[0] <= 0xF3 || (u[0] == 0xF4 && u[1] <= 0x8F)))
  }

  predicate IsSurrogate(ch: codepoint) {
    0xD800 <= ch <= 0xDFFF
  }

  /** The encoder also encodes surrogates; its output is well-formed for all other code points only. */
  lemma Utf8WellFormedExact(ch: codepoint)
    requires ch <= UNICODE_MAX
    ensures WellFormed(Utf8(ch)) <==> !IsSurrogate(ch)
  {
  }

  /** What the demonstration encodes: a space, U+6C49 and U+1F600. */
  lemma DemonstrationUtf8()
    ensures Utf8(0x20) == [0x20] && Utf8(0x6C49) == [0xE6, 0xB1, 0x89] && Utf8(0x1F600) == [0xF0, 0x9F, 0x98, 0x80]
  {
  }

  lemma DemonstrationUtf16()
    ensures Utf16(0x20) == [0x20] && Utf16(0x6C49) == [0x6C49] && Utf16(0x1F600) == [0xD83D, 0xDE00]
  {
  }

  // ---------- UTF-16 read back ----------

  predicate IsHigh(u: unit) { 0xD800 <= u <= 0xDBFF }

  predicate IsLow(u: unit) { 0xDC00 <= u <= 0xDFFF }

  function Halves(high: unit, low: unit): codepoint {
    ((high & 0x3FF) as codepoint << 10) | (low & 0x3FF) as codepoint
  }

  function Combined(high: unit, low: unit): codepoint {
    0x10000 + Halves(high, low)
  }

  /** A high unit and a low unit together name a supplementary code point; every other unit names itself. */
  function Decode16(s: seq<unit>): seq<codepoint> {
    if s == [] then []
    else if |s| >= 2 && IsHigh(s[0]) && IsLow(s[1]) then [Combined(s[0], s[1])] + Decode16(s[2..])
    else [s[0] as codepoint] + Decode16(s[1..])
  }

  predicate IsHighPoint(ch: codepoint) { 0xD800 <= ch <= 0xDBFF }

  predicate IsLowPoint(ch: codepoint) { 0xDC00 <= ch <= 0xDFFF }

  /** A high surrogate directly before a low one, each given as a code point of its own. */
  predicate HasSplitPair(cs: seq<codepoint>) {
    exists i :: 0 <= i < |cs| - 1 && IsHighPoint(cs[i]) && IsLowPoint(cs[i + 1])
  }

  lemma SingleBits(ch: codepoint)
    requires ch < 0x10000
    ensures Single(ch) as codepoint == ch
    ensures (IsHigh(Single(ch)) <==> IsHighPoint(ch)) && (IsLow(Single(ch)) <==> IsLowPoint(ch))
  {
  }

  lemma OffsetBits(ch: codepoint, d: codepoint)
    requires 0x10000 <= ch <= UNICODE_MAX && d == ch - 0x10000
    ensures d <= 0xFFFFF && Low(ch) == Low(d) && 0x10000 + d == ch
  {
  }

  lemma HalfBits(d: codepoint)
    requires d <= 0xFFFFF
    ensures IsHigh(HighHalf(d)) && !IsLow(HighHalf(d)) && IsLow(Low(d))
    ensures Halves(HighHalf(d), Low(d)) == d
  {
  }

  lemma PairBits(ch: codepoint)
    requires 0x10000 <= ch <= UNICODE_MAX
    ensures IsHigh(High(ch)) && !IsLow(High(ch)) && IsLow(Low(ch))
    ensures Combined(High(ch), Low(ch)) == ch
  {
    hide IsHigh, IsLow, HighHalf, Low, Halves;
    OffsetBits(ch, ch - 0x10000);
    HalfBits(ch - 0x10000);
  }

  /** The units of one code point. */
  lemma Utf16Single(ch: codepoint)
    requires ch < 0x10000
    ensures Utf16(ch) == [Single(ch)] && Single(ch) as codepoint == ch
    ensures (IsHigh(Single(ch)) <==> IsHighPoint(ch)) && (IsLow(Single(ch)) <==> IsLowPoint(ch))
  {
    hide IsHigh, IsLow, IsHighPoint, IsLowPoint, Single;
    SingleBits(ch);
  }

  lemma Utf16Pair(ch: codepoint)
    requires 0x10000 <= ch <= UNICODE_MAX
    ensures Utf16(ch) == [High(ch), Low(ch)]
    ensures IsHigh(High(ch)) && !IsLow(High(ch)) && IsLow(Low(ch))
    ensures Combined(High(ch), Low(ch)) == ch
  {
    hide IsHigh, IsLow, Combined, High, Low;
    PairBits(ch);
  }

  lemma SurrogatesAreSmall(ch: codepoint)
    ensures IsHighPoint(ch) || IsLowPoint(ch) ==> ch < 0x10000
  {
  }

  /** The first unit of an encoding is a low surrogate exactly when the first code point is one. */
  lemma FirstUnit(cs: seq<codepoint>)
    requires AreCodePoints(cs) && cs != []
    ensures Utf16All(cs) != [] && (IsLow(Utf16All(cs)[0]) <==> IsLowPoint(cs[0]))
  {
    hide Utf16, IsLow, IsHigh, IsHighPoint, IsLowPoint, Combined, Single, High, Low;
    SurrogatesAreSmall(cs[0]);
    if cs[0] < 0x10000 { Utf16Single(cs[0]); } else { Utf16Pair(cs[0]); }
  }

  /** How the decoder reads the units of the first code point and goes on. */
  lemma Decode16First(ch: codepoint, tail: seq<unit>)
    requires ch <= UNICODE_MAX
    ensures Decode16(Utf16(ch) + tail)
         == if IsHighPoint(ch) && tail != [] && IsLow(tail[0])
            then [Combined(Single(ch), tail[0])] + Decode16(tail[1..])
            else [ch] + Decode16(tail)
    ensures IsHighPoint(ch) ==> ch < 0x10000
  {
    hide Utf16, IsLow, IsHigh, IsHighPoint, IsLowPoint, Combined, Single, High, Low;
    SurrogatesAreSmall(ch);
    var s := Utf16(ch) + tail;
    if ch < 0x10000 {
      Utf16Single(ch);
      assert s[1..] == tail;
      if tail != [] { assert s[2..] == tail[1..]; }
    } else {
      Utf16Pair(ch);
      assert s[2..] == tail;
    }
  }

  lemma Decode16Nothing()
    ensures Decode16(Utf16All([])) == [] && !HasSplitPair([])
  {
  }

  lemma SplitPairStep(cs: seq<codepoint>)
    requires cs != []
    ensures HasSplitPair(cs) <==> HasSplitPair(cs[1..]) || (|cs| >= 2 && IsHighPoint(cs[0]) && IsLowPoint(cs[1]))
  {
    var tail := cs[1..];
    if i :| 0 <= i < |tail| - 1 && IsHighPoint(tail[i]) && IsLowPoint(tail[i + 1]) {
      assert IsHighPoint(cs[i + 1]) && IsLowPoint(cs[i + 2]);
    }
    if i :| 0 < i < |cs| - 1 && IsHighPoint(cs[i]) && IsLowPoint(cs[i + 1]) {
      assert IsHighPoint(tail[i - 1]) && IsLowPoint(tail[i]);
    }
  }

  /** UTF-16 output determines the code points unless a surrogate pair was passed in as two of them. */
  lemma {:induction false} Decode16Exact(cs: seq<codepoint>)
    requires AreCodePoints(cs)
    ensures Decode16(Utf16All(cs)) == cs <==> !HasSplitPair(cs)
    ensures |Decode16(Utf16All(cs))| <= |cs|
  {
    hide Utf16, IsLow, IsHigh, IsHighPoint, IsLowPoint, Combined, Single, HasSplitPair, Decode16;
    if cs == [] {
      Decode16Nothing();
    } else {
      var rest := cs[1..];
      assert cs == [cs[0]] + rest;
      Decode16First(cs[0], Utf16All(rest));
      Decode16Exact(rest);
      SplitPairStep(cs);
      if rest != [] {
        FirstUnit(rest);
        if IsHighPoint(cs[0]) && IsLowPoint(rest[0]) {
          // the two units are read as one code point, so the decoding is too short
          SurrogatesAreSmall(rest[0]);
          Utf16Single(rest[0]);
          assert Utf16All(rest)[1..] == Utf16All(rest[1..]);
          Decode16Exact(rest[1..]);
        }
      }
    }
  }
}
