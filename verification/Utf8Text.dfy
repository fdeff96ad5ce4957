/** Telling UTF-8 text from other text, and cutting it without splitting a character. */
module Utf8Text {
  import opened Bytes
  import opened Characters
  import opened Utf

  datatype TextType = ANSI | UTF8

  // ---------- units ----------

  /** The length of a unit that a lead byte announces, up to the six-byte form; 0 for a byte that leads nothing. */
  function UnitLength(c: byte): nat {
    if c & 0x80 == 0 then 1
    else if c & 0xE0 == 0xC0 then 2
    else if c & 0xF0 == 0xE0 then 3
    else if c & 0xF8 == 0xF0 then 4
    else if c & 0xFC == 0xF8 then 5
    else if c & 0xFE == 0xFC then 6
    else 0
  }

  /** A lead byte and as many continuation bytes as it announces. */
  predicate IsUnit(u: seq<byte>) {
    u != [] && UnitLength(u[0]) == |u| && forall i :: 1 <= i < |u| ==> IsContinuation(u[i])
  }

  function Flatten(us: seq<seq<byte>>): seq<byte> {
    if us == [] then [] else us[0] + Flatten(us[1..])
  }

  predicate AreUnits(us: seq<seq<byte>>) {
    forall i :: 0 <= i < |us| ==> IsUnit(us[i])
  }

  /** The bytes are a concatenation of whole units. */
  ghost predicate IsUnitText(s: seq<byte>) {
    exists us: seq<seq<byte>> :: AreUnits(us) && Flatten(us) == s
  }

  /** A unit starts the bytes. */
  predicate UnitFirst(s: seq<byte>) {
    s != [] && UnitLength(s[0]) <= |s| && IsUnit(s[..UnitLength(s[0])])
  }

  lemma NothingIsUnitText()
    ensures IsUnitText([])
  {
    assert AreUnits([]) && Flatten([]) == [];
  }

  lemma FirstUnitOf(us: seq<seq<byte>>)
    requires AreUnits(us) && Flatten(us) != []
    ensures us != []
    ensures var s := Flatten(us);
      && UnitLength(s[0]) == |us[0]| <= |s|
      && s[..|us[0]|] == us[0] && s[|us[0]|..] == Flatten(us[1..])
      && UnitFirst(s)
  {
  }

  lemma UnitInFront(u: seq<byte>, us: seq<seq<byte>>)
    requires IsUnit(u) && AreUnits(us)
    ensures AreUnits([u] + us) && Flatten([u] + us) == u + Flatten(us)
  {
    hide IsUnit;
    assert ([u] + us)[1..] == us;
  }

  lemma TextOfUnits(us: seq<seq<byte>>)
    requires AreUnits(us)
    ensures IsUnitText(Flatten(us))
  {
  }

  lemma RestOfUnits(us: seq<seq<byte>>)
    requires AreUnits(us) && us != []
    ensures AreUnits(us[1..])
  {
    hide IsUnit;
  }

  lemma UnitTextEnds(s: seq<byte>)
    requires s != [] && IsUnitText(s)
    ensures UnitFirst(s) && IsUnitText(s[UnitLength(s[0])..])
  {
    var us: seq<seq<byte>> :| AreUnits(us) && Flatten(us) == s;
    hide *;
    FirstUnitOf(us);
    RestOfUnits(us);
    TextOfUnits(us[1..]);
  }

  lemma UnitTextGrows(u: seq<byte>, rest: seq<byte>)
    requires IsUnit(u) && IsUnitText(rest)
    ensures IsUnitText(u + rest)
  {
    var us: seq<seq<byte>> :| AreUnits(us) && Flatten(us) == rest;
    hide *;
    UnitInFront(u, us);
    TextOfUnits([u] + us);
  }

  /** Units are read off the front in one way only. */
  lemma UnitTextStep(s: seq<byte>)
    requires s != []
    ensures IsUnitText(s) <==> UnitFirst(s) && IsUnitText(s[UnitLength(s[0])..])
  {
    hide IsUnit, IsUnitText;
    if IsUnitText(s) { UnitTextEnds(s); }
    if UnitFirst(s) && IsUnitText(s[UnitLength(s[0])..]) {
      var n := UnitLength(s[0]);
      UnitTextGrows(s[..n], s[n..]);
      assert s[..n] + s[n..] == s;
    }
  }

  lemma UnitFirstMeans(text: seq<byte>, p: nat)
    requires p < |text|
    ensures var n := UnitLength(text[p]);
      UnitFirst(text[p..]) <==> 1 <= n <= |text| - p && forall k :: p + 1 <= k < p + n ==> IsContinuation(text[k])
    ensures text[p..][0] == text[p]
    ensures UnitLength(text[p]) <= |text| - p ==> text[p..][UnitLength(text[p])..] == text[p + UnitLength(text[p])..]
  {
    hide UnitLength, IsContinuation;
    var n := UnitLength(text[p]);
    if 1 <= n <= |text| - p {
      var u := text[p..][..n];
      assert u == text[p..p + n];
      if UnitFirst(text[p..]) {
        forall k | p + 1 <= k < p + n
          ensures IsContinuation(text[k])
        {
          assert u[k - p] == text[k];
        }
      }
    }
  }

  // ---------- unit text by its bytes ----------

  predicate Follows(b: byte) {
    0x80 <= b <= 0xBF
  }

  /** How many bytes a byte below 0x80 or from 0xC0 to 0xFD wants behind it. */
  function Wanted(b: byte): nat {
    if b < 0xC0 then 0
    else if b < 0xE0 then 1
    else if b < 0xF0 then 2
    else if b < 0xF8 then 3
    else if b < 0xFC then 4
    else 5
  }

  /** How many bytes 0x80..0xBF stand in a row from position i on. */
  function Run(s: seq<byte>, i: nat): (n: nat)
    requires i <= |s|
    ensures i + n <= |s| && forall k :: i <= k < i + n ==> Follows(s[k])
    ensures i + n < |s| ==> !Follows(s[i + n])
    decreases |s| - i
  {
    if i < |s| && Follows(s[i]) then 1 + Run(s, i + 1) else 0
  }

  /** The byte at i follows another one, or is followed by exactly the bytes it wants. */
  predicate IsLedAt(s: seq<byte>, i: nat)
    requires i < |s|
  {
    s[i] < 0xFE && (Follows(s[i]) || Run(s, i + 1) == Wanted(s[i]))
  }

  /** No byte that follows stands first, and every other byte is followed by exactly the bytes it wants. */
  predicate IsLed(s: seq<byte>) {
    && (s != [] ==> !Follows(s[0]))
    && forall i :: 0 <= i < |s| ==> IsLedAt(s, i)
  }

  lemma UnitLengthByRange(b: byte)
    ensures UnitLength(b) == if Follows(b) || b >= 0xFE then 0 else 1 + Wanted(b)
    ensures IsContinuation(b) <==> Follows(b)
  {
  }

  lemma {:induction false} RunIs(s: seq<byte>, i: nat, n: nat)
    requires i + n <= |s| && forall k :: i <= k < i + n ==> Follows(s[k])
    requires i + n < |s| ==> !Follows(s[i + n])
    ensures Run(s, i) == n
    decreases n
  {
    hide Follows;
    if n > 0 { RunIs(s, i + 1, n - 1); }
  }

  /** Cutting bytes off the front leaves the runs behind them as they are. */
  lemma RunBehind(s: seq<byte>, n: nat, i: nat)
    requires n <= |s| && i <= |s| - n
    ensures Run(s[n..], i) == Run(s, n + i)
  {
    hide Follows;
    var r := Run(s, n + i);
    forall k | i <= k < i + r
      ensures Follows(s[n..][k])
    {
      assert s[n..][k] == s[n + k];
    }
    RunIs(s[n..], i, r);
  }

  lemma LedBehind(s: seq<byte>, n: nat, i: nat)
    requires n + i < |s|
    ensures IsLedAt(s[n..], i) <==> IsLedAt(s, n + i)
  {
    hide Follows, Wanted, Run;
    RunBehind(s, n, i + 1);
  }

  lemma UnitFirstByRange(s: seq<byte>)
    requires s != []
    ensures UnitFirst(s) <==>
      && !Follows(s[0]) && s[0] < 0xFE && 1 + Wanted(s[0]) <= |s|
      && forall k :: 1 <= k < 1 + Wanted(s[0]) ==> Follows(s[k])
  {
    hide Wanted, Follows, UnitLength, IsContinuation;
    UnitFirstMeans(s, 0);
    assert s[0..] == s;
    UnitLengthByRange(s[0]);
    forall k | 1 <= k < |s|
      ensures IsContinuation(s[k]) <==> Follows(s[k])
    {
      UnitLengthByRange(s[k]);
    }
  }

  lemma LedInUnit(s: seq<byte>, n: nat, i: nat)
    requires i < n <= |s| && n == 1 + Wanted(s[0]) && Run(s, 1) == Wanted(s[0])
    requires !Follows(s[0]) && s[0] < 0xFE && forall k :: 1 <= k < n ==> Follows(s[k])
    ensures IsLedAt(s, i)
  {
    hide Wanted;
  }

  /** A text is led when a unit stands first and what is behind it is led. */
  lemma LedFromUnit(s: seq<byte>, n: nat)
    requires s != [] && UnitFirst(s) && n == 1 + Wanted(s[0]) <= |s| && IsLed(s[n..])
    ensures IsLed(s)
  {
    hide Follows, Wanted, UnitFirst, IsLedAt, Run;
    UnitFirstByRange(s);
    assert n < |s| ==> s[n..][0] == s[n];
    RunIs(s, 1, n - 1);
    forall i | 0 <= i < |s|
      ensures IsLedAt(s, i)
    {
      if i >= n { LedBehind(s, n, i - n); } else { LedInUnit(s, n, i); }
    }
  }

  lemma UnitFromLed(s: seq<byte>)
    requires s != [] && IsLed(s)
    ensures UnitFirst(s) && 1 + Wanted(s[0]) <= |s| && IsLed(s[1 + Wanted(s[0])..])
  {
    hide Follows, Wanted, UnitFirst, Run;
    var n := 1 + Wanted(s[0]);
    assert IsLedAt(s, 0);
    UnitFirstByRange(s);
    var rest := s[n..];
    assert rest != [] ==> rest[0] == s[n];
    forall i | 0 <= i < |rest|
      ensures IsLedAt(rest, i)
    {
      LedBehind(s, n, i);
      assert IsLedAt(s, n + i);
    }
  }

  /** Whole units are told by the bytes alone. */
  lemma {:induction false} UnitTextExact(s: seq<byte>)
    ensures IsUnitText(s) <==> IsLed(s)
    decreases s
  {
    if s == [] {
      NothingIsUnitText();
    } else {
      hide IsUnitText, UnitFirst, IsLed, Follows, Wanted;
      UnitTextStep(s);
      UnitFirstByRange(s);
      UnitLengthByRange(s[0]);
      if UnitFirst(s) {
        var n := 1 + Wanted(s[0]);
        UnitTextExact(s[n..]);
        if IsLed(s[n..]) { LedFromUnit(s, n); }
      }
      if IsLed(s) { UnitFromLed(s); }
    }
  }

  /** A witness: the GBK bytes B0 A1 are no UTF-8. */
  lemma GbkPairIsNotLed()
    ensures !IsLed([0xB0, 0xA1])
  {
  }

  method CheckTextType(data: seq<byte>, size: int) returns (r: TextType)
    requires size <= |data|
    ensures r == UTF8 <==> IsUnitText(data[..if size < 0 then 0 else size])
    ensures r == UTF8 <==> IsLed(data[..if size < 0 then 0 else size])
  {
    hide IsUnitText, IsUnit, IsLed;
    var left := size;
    var p := 0;
    NothingIsUnitText();
    ghost var text := data[..if size < 0 then 0 else size];
    UnitTextExact(text);
    assert text[0..] == text;
    while left > 0
      invariant 0 <= p <= |text| && (left > 0 ==> left == |text| - p)
      invariant left <= 0 ==> p == |text|
      invariant IsUnitText(text) <==> IsUnitText(text[p..])
    {
      UnitTextStep(text[p..]);
      UnitFirstMeans(text, p);
      var c := data[p];
      var n := 0;
      if c & 0x80 == 0 {
        n := 1;
      } else if c & 0xE0 == 0xC0 {
        n := 2;
      } else if c & 0xF0 == 0xE0 {
        n := 3;
      } else if c & 0xF8 == 0xF0 {
        n := 4;
      } else if c & 0xFC == 0xF8 {
        n := 5;
      } else if c & 0xFE == 0xFC {
        n := 6;
      } else {
        return ANSI;
      }
      if left < n {
        return ANSI;
      }
      assert n == UnitLength(text[p]);
      // the tests of the continuation bytes, one after the other
      var i := p + 1;
      while i < p + n
        invariant p + 1 <= i <= p + n
        invariant forall k :: p + 1 <= k < i ==> IsContinuation(text[k])
      {
        if data[i] & 0xC0 != 0x80 {
          assert !IsContinuation(text[i]);
          return ANSI;
        }
        i := i + 1;
      }
      p, left := p + n, left - n;
    }
    assert text[p..] == [];
    return UTF8;
  }

  // ---------- encodings are units ----------

  lemma OneByteUnit(ch: codepoint)
    requires ch < 0x80
    ensures UnitLength(ch as byte) == 1
  {
  }

  lemma LeadUnits(ch: codepoint)
    ensures 0x80 <= ch < 0x800 ==> UnitLength(Lead2(ch)) == 2
    ensures 0x800 <= ch < 0x10000 ==> UnitLength(Lead3(ch)) == 3
    ensures 0x10000 <= ch <= UNICODE_MAX ==> UnitLength(Lead4(ch)) == 4
  {
  }

  lemma Utf8IsUnit(ch: codepoint)
    requires ch <= UNICODE_MAX
    ensures IsUnit(Utf8(ch))
  {
    hide UnitLength, IsContinuation, Lead2, Lead3, Lead4, Trail0, Trail1, Trail2, Payload, LeadLength;
    Utf8Unit(ch);
    LeadUnits(ch);
    if ch < 0x80 { OneByteUnit(ch); }
  }

  /** Whatever the encoder produced is recognised as UTF-8. */
  lemma {:induction false} EncodingsAreUnitText(cs: seq<codepoint>)
    requires AreCodePoints(cs)
    ensures IsUnitText(Utf8All(cs))
  {
    hide Utf8, IsUnit, UnitLength;
    if cs == [] {
      NothingIsUnitText();
    } else {
      EncodingsAreUnitText(cs[1..]);
      Utf8IsUnit(cs[0]);
      var us: seq<seq<byte>> :| AreUnits(us) && Flatten(us) == Utf8All(cs[1..]);
      assert ([Utf8(cs[0])] + us)[1..] == us;
      assert AreUnits([Utf8(cs[0])] + us) && Flatten([Utf8(cs[0])] + us) == Utf8All(cs);
    }
  }

  // ---------- cutting between characters ----------

  /** No character ends at srcLen, and the one that goes on there ends before destSize. */
  ghost predicate StandsAcross(s: seq<byte>, srcLen: nat, destSize: int) {
    && !Reaches(Utf8Words, s, 0, srcLen)
    && exists k: nat :: srcLen < k < destSize && Reaches(Utf8Words, s, 0, k)
  }

  /** A character that starts before srcLen and ends behind it stands across. */
  lemma AcrossByStart(s: seq<byte>, start: nat, srcLen: nat, destSize: int)
    requires Reaches(Utf8Words, s, 0, start) && start < srcLen && start < |s|
    requires srcLen < start + WordSize(s[start]) < destSize
    ensures StandsAcross(s, srcLen, destSize)
  {
    hide WordSize, Reaches;
    ReachesOn(Utf8Words, s, 0, start);
    if Reaches(Utf8Words, s, 0, srcLen) { ReachedApart(Utf8Words, s, 0, start, srcLen); }
  }

  /** Where the copy stops at or before srcLen, no character stands across. */
  lemma NotAcross(s: seq<byte>, len: nat, srcLen: nat, destSize: int)
    requires len <= srcLen && Reaches(Utf8Words, s, 0, len)
    requires len < srcLen ==> forall k: nat :: Reaches(Utf8Words, s, 0, k) && len < k ==> k >= destSize
    ensures !StandsAcross(s, srcLen, destSize)
  {
    hide Reaches;
  }

  /** A witness: of a lead byte of three, one byte asked for takes three when they fit. */
  lemma LeadByteStandsAcross(s: seq<byte>, destSize: int)
    requires s != [] && s[0] == 0xE4
    ensures StandsAcross(s, 1, destSize) <==> destSize > 3
  {
    assert WordSize(s[0]) == 3;
    assert Reaches(Utf8Words, s, 0, 3) && !Reaches(Utf8Words, s, 0, 1) && !Reaches(Utf8Words, s, 0, 2);
  }

  /** memcpy of n bytes at the same position of both buffers. */
  method Memcpy(dest: array<byte>, src: array<byte>, at: nat, n: nat)
    requires src != dest && at + n <= src.Length && at + n <= dest.Length
    modifies dest
    ensures forall k :: at <= k < at + n ==> dest[k] == src[k]
    ensures forall k :: 0 <= k < dest.Length && !(at <= k < at + n) ==> dest[k] == old(dest[k])
  {
    forall k | at <= k < at + n { dest[k] := src[k]; }
  }

  method GetUtf8Words(src: array?<byte>, srcLen: int, dest: array?<byte>, destSize: int) returns (len: nat)
    requires src != null && dest != null ==> src != dest
    requires src != null && dest != null ==> WordsReadable(src[..], srcLen)
    requires dest != null ==> dest.Length >= 1 && destSize <= dest.Length
    modifies dest
    ensures src == null || dest == null ==> len == 0 && (dest != null ==> dest[..] == old(dest[..]))
    ensures src != null && dest != null ==>
      && len <= src.Length && len < dest.Length
      && dest[..len] == src[..len] && dest[len] == 0
      && (forall k :: len < k < dest.Length ==> dest[k] == old(dest[k]))
    // len is the longest run of whole characters that fits
    ensures src != null && dest != null ==>
      && Reaches(Utf8Words, src[..], 0, len) && (len == 0 || len < destSize)
      && (forall k: nat :: Reaches(Utf8Words, src[..], 0, k) && k < destSize && len < k ==> len >= srcLen)
    // more than srcLen bytes are taken exactly when a character stands across srcLen and fits
    ensures src != null && dest != null && srcLen >= 0 ==>
      (len > srcLen <==> StandsAcross(src[..], srcLen, destSize))
  {
    hide WordSize;
    if src == null || dest == null {
      return 0;
    }
    len := 0;
    ghost var s := src[..];
    ghost var start := 0;
    while len < srcLen
      modifies dest
      invariant len <= src.Length && len < dest.Length && (len == 0 || len < destSize)
      invariant Reaches(Utf8Words, s, 0, len)
      invariant len > 0 ==>
        Reaches(Utf8Words, s, 0, start) && start < srcLen && start < |s| && start + WordSize(s[start]) == len
      invariant forall k :: 0 <= k < len ==> dest[k] == src[k]
      invariant forall k :: len <= k < dest.Length ==> dest[k] == old(dest[k])
    {
      var wordSize := WordSize(src[len]);
      if len + wordSize >= destSize {
        forall k: nat | Reaches(Utf8Words, s, 0, k) && len < k
          ensures k >= destSize
        {
          ReachedApart(Utf8Words, s, 0, len, k);
        }
        break;
      }
      ReachesOn(Utf8Words, s, 0, len);
      Memcpy(dest, src, len, wordSize);
      start := len;
      len := len + wordSize;
    }
    if srcLen >= 0 {
      if len > srcLen {
        AcrossByStart(s, start, srcLen, destSize);
      } else {
        NotAcross(s, len, srcLen, destSize);
      }
    }
    dest[len] := 0;
  }

  // ---------- cutting encodings ----------

  lemma WordSizeOfLead(b: byte)
    ensures 1 <= UnitLength(b) <= 4 ==> WordSize(b) == UnitLength(b)
  {
  }

  lemma WordSizeOfUnit(ch: codepoint)
    requires ch <= UNICODE_MAX
    ensures WordSize(Utf8(ch)[0]) == |Utf8(ch)|
  {
    hide IsContinuation, Lead2, Lead3, Lead4, Trail0, Trail1, Trail2, Utf8;
    Utf8IsUnit(ch);
    WordSizeOfLead(Utf8(ch)[0]);
  }

  /** The first code point of an encoding that stands at a position, and the rest behind it. */
  lemma FirstPoint(s: seq<byte>, at: nat, cs: seq<codepoint>) returns (n: nat)
    requires AreCodePoints(cs) && cs != [] && at <= |s| && s[at..] == Utf8All(cs)
    ensures n == |Utf8(cs[0])| && at + n <= |s| && at < |s| && WordSize(s[at]) == n >= 1
    ensures s[at..at + n] == Utf8(cs[0]) && s[at + n..] == Utf8All(cs[1..])
  {
    hide Utf8, WordSize;
    var u := Utf8(cs[0]);
    n := |u|;
    WordSizeOfUnit(cs[0]);
    assert s[at] == s[at..][0] == u[0];
    assert s[at..at + n] == s[at..][..n] == u;
    assert s[at + n..] == s[at..][n..] == Utf8All(cs[1..]);
  }

  lemma PrefixPoints(cs: seq<codepoint>, i: nat)
    requires AreCodePoints(cs) && 0 < i <= |cs|
    ensures AreCodePoints(cs[..i]) && AreCodePoints(cs[1..][..i - 1])
    ensures Utf8All(cs[..i]) == Utf8(cs[0]) + Utf8All(cs[1..][..i - 1])
  {
    hide Utf8;
    assert cs[..i][1..] == cs[1..][..i - 1] && cs[..i][0] == cs[0];
  }

  lemma NoPoints(cs: seq<codepoint>)
    requires AreCodePoints(cs)
    ensures Utf8All(cs[..0]) == []
    ensures cs == [] ==> Utf8All(cs) == []
  {
  }

  /** In an encoding, whole characters reach exactly the ends of the encodings of code points. */
  lemma {:induction false} ReachedPoint(s: seq<byte>, at: nat, cs: seq<codepoint>, k: nat) returns (i: nat)
    requires AreCodePoints(cs) && at <= |s| && s[at..] == Utf8All(cs)
    requires Reaches(Utf8Words, s, at, k)
    ensures k <= |s| && i <= |cs| && at <= k && s[at..k] == Utf8All(cs[..i])
    decreases |cs|
  {
    hide Utf8, WordSize, Utf8All;
    i := 0;
    NoPoints(cs);
    if k != at && cs != [] {
      var n := FirstPoint(s, at, cs);
      var j := ReachedPoint(s, at + n, cs[1..], k);
      i := j + 1;
      PrefixPoints(cs, i);
      assert s[at..k] == s[at..at + n] + s[at + n..k];
    }
  }

  lemma {:induction false} PointsAreReached(s: seq<byte>, at: nat, cs: seq<codepoint>, i: nat)
    requires AreCodePoints(cs) && at <= |s| && s[at..] == Utf8All(cs) && i <= |cs|
    ensures Reaches(Utf8Words, s, at, at + |Utf8All(cs[..i])|)
    decreases i
  {
    hide Utf8, WordSize, Utf8All;
    NoPoints(cs);
    if i > 0 {
      var n := FirstPoint(s, at, cs);
      PointsAreReached(s, at + n, cs[1..], i - 1);
      PrefixPoints(cs, i);
    }
  }

  /** Reading an encoding never runs past its end. */
  lemma EncodingIsReadable(cs: seq<codepoint>)
    requires AreCodePoints(cs)
    ensures WordsReadable(Utf8All(cs), |Utf8All(cs)|)
  {
    hide Utf8, WordSize;
    var s := Utf8All(cs);
    assert s[0..] == s;
    forall k: nat | Reaches(Utf8Words, s, 0, k) && k < |s|
      ensures k + WordSize(s[k]) <= |s|
    {
      ReachesOn(Utf8Words, s, 0, k);
      var i := ReachedPoint(s, 0, cs, k + WordSize(s[k]));
    }
  }

  lemma {:induction false} LongerEncoding(cs: seq<codepoint>, i: nat)
    requires AreCodePoints(cs) && i < |cs|
    ensures |Utf8All(cs[..i])| < |Utf8All(cs[..i + 1])|
    decreases i
  {
    hide Utf8;
    if i > 0 {
      assert cs[..i][1..] == cs[1..][..i - 1] && cs[..i + 1][1..] == cs[1..][..i];
      LongerEncoding(cs[1..], i - 1);
    }
  }

  /** A cut as GetUtf8Words makes it keeps the encodings of as many code points as fit, and they decode to these. */
  lemma CutOfEncoding(cs: seq<codepoint>, len: nat, destSize: int) returns (i: nat)
    requires AreCodePoints(cs)
    requires var s := Utf8All(cs);
      && Reaches(Utf8Words, s, 0, len) && (len == 0 || len < destSize)
      && forall k: nat :: Reaches(Utf8Words, s, 0, k) && k < destSize && len < k ==> len >= |s|
    ensures i <= |cs| && len <= |Utf8All(cs)|
    ensures Utf8All(cs)[..len] == Utf8All(cs[..i])
    ensures Decode8(Utf8All(cs)[..len]) == cs[..i]
    ensures i < |cs| ==> |Utf8All(cs[..i + 1])| >= destSize
  {
    hide Utf8, WordSize, Decode8;
    var s := Utf8All(cs);
    assert s[0..] == s;
    i := ReachedPoint(s, 0, cs, len);
    Decode8Utf8All(cs[..i]);
    if i < |cs| {
      PointsAreReached(s, 0, cs, i + 1);
      var j := ReachedPoint(s, 0, cs, |Utf8All(cs[..i + 1])|);
      LongerEncoding(cs, i);
    }
  }
}
