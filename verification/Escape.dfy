/** Escaped values: the separators of a record never appear in them, and unescaping gives the value back. */
module Escape {
  import opened Bytes

  const BACKSLASH: byte := 92
  const EQUALS: byte := 61
  const AMPERSAND: byte := 38
  const NEWLINE: byte := 10

  // ---------- the escape of a character and of a text ----------

  function Escaped(c: byte): (e: seq<byte>)
    ensures 1 <= |e| <= 2
  {
    if c == BACKSLASH then [BACKSLASH, BACKSLASH]
    else if c == EQUALS then [BACKSLASH, 97]     // a
    else if c == AMPERSAND then [BACKSLASH, 98]  // b
    else if c == NEWLINE then [BACKSLASH, 110]   // n
    else [c]
  }

  function EscapeText(s: seq<byte>): seq<byte> {
    if s == [] then [] else EscapeText(s[..|s| - 1]) + Escaped(s[|s| - 1])
  }

  /** The character an escape pair stands for; an unknown pair stands for a backslash. */
  function PairMeaning(c: byte): byte {
    if c == BACKSLASH then BACKSLASH
    else if c == 97 then EQUALS
    else if c == 98 then AMPERSAND
    else if c == 110 then NEWLINE
    else BACKSLASH
  }

  /** Characters taken from the front of an escaped text for one unescaped character. */
  function PairLength(s: seq<byte>): nat {
    if |s| >= 2 && s[0] == BACKSLASH then 2 else 1
  }

  function Unescape(s: seq<byte>): (r: seq<byte>)
    ensures |r| <= |s|
  {
    if s == [] then []
    else if PairLength(s) == 2 then [PairMeaning(s[1])] + Unescape(s[2..])
    else [s[0]] + Unescape(s[1..])
  }

  // ---------- properties ----------

  lemma {:induction false} EscapeConcat(a: seq<byte>, b: seq<byte>)
    ensures EscapeText(a + b) == EscapeText(a) + EscapeText(b)
  {
    hide Escaped;
    if b == [] {
      assert a + b == a;
    } else {
      var last := |b| - 1;
      assert (a + b)[..|a + b| - 1] == a + b[..last];
      EscapeConcat(a, b[..last]);
    }
  }

  lemma EscapedIsClean(c: byte)
    ensures EQUALS !in Escaped(c) && AMPERSAND !in Escaped(c) && NEWLINE !in Escaped(c)
    ensures c != 0 ==> 0 !in Escaped(c)
  {
  }

  /** An escaped text is free of separators and newlines, and still a text. */
  lemma {:induction false} EscapeHasNoSeparators(s: seq<byte>)
    ensures EQUALS !in EscapeText(s) && AMPERSAND !in EscapeText(s) && NEWLINE !in EscapeText(s)
    ensures IsText(s) ==> IsText(EscapeText(s))
    ensures |s| <= |EscapeText(s)|
  {
    hide Escaped;
    if s != [] {
      EscapedIsClean(s[|s| - 1]);
      EscapeHasNoSeparators(s[..|s| - 1]);
    }
  }

  lemma UnescapeOne(c: byte, rest: seq<byte>)
    ensures Unescape(Escaped(c) + rest) == [c] + Unescape(rest)
  {
    assert (Escaped(c) + rest)[|Escaped(c)|..] == rest;
  }

  /** Unescaping an escaped text, with anything after it, gives the value and continues after it. */
  lemma {:induction false} UnescapeEscapeThen(s: seq<byte>, rest: seq<byte>)
    ensures Unescape(EscapeText(s) + rest) == s + Unescape(rest)
    decreases s
  {
    hide Escaped, Unescape;
    if s == [] {
      assert EscapeText(s) + rest == rest;
    } else {
      var front, c := s[..|s| - 1], s[|s| - 1];
      assert EscapeText(s) + rest == EscapeText(front) + (Escaped(c) + rest);
      UnescapeEscapeThen(front, Escaped(c) + rest);
      UnescapeOne(c, rest);
      assert s + Unescape(rest) == front + ([c] + Unescape(rest));
    }
  }

  lemma UnescapeEscape(s: seq<byte>)
    ensures Unescape(EscapeText(s)) == s
  {
    hide EscapeText;
    UnescapeEscapeThen(s, []);
    assert EscapeText(s) + [] == EscapeText(s) && s + [] == s;
  }

  /** The escape of each character: \, =, & and the newline become \\, \a, \b and \n. */
  lemma EscapeTable(s: seq<byte>, c: byte)
    ensures EscapeText(s + [c])
         == EscapeText(s) + if c == 92 then [92, 92] else if c == 61 then [92, 97]
                            else if c == 38 then [92, 98] else if c == 10 then [92, 110] else [c]
  {
    assert (s + [c])[..|s|] == s;
  }

  /** How the front of a text is unescaped: an unknown pair stands for a backslash, and so does one at the end. */
  lemma UnescapeTable(c: byte, rest: seq<byte>)
    ensures Unescape([92, c] + rest)
         == [if c == 97 then 61 else if c == 98 then 38 else if c == 110 then 10 else 92] + Unescape(rest)
    ensures c != 92 ==> Unescape([c] + rest) == [c] + Unescape(rest)
    ensures Unescape([92]) == [92]
  {
    assert ([92, c] + rest)[2..] == rest && ([c] + rest)[1..] == rest;
    assert [92][1..] == [] && Unescape([]) == [];
  }

  // ---------- escaping into a bounded buffer ----------

  /** Characters a buffer of the given size holds before its terminator. */
  function Room(size: int): nat {
    if size < 1 then 0 else size - 1
  }

  lemma WholePrefix(s: seq<byte>)
    ensures s[..|s|] == s
  {
  }

  lemma PrefixOfFront(s: seq<byte>, k: nat)
    requires k < |s|
    ensures s[..|s| - 1][..k] == s[..k]
  {
  }

  /** The longest fitting prefix of all but the last character is that of a text that does not fit. */
  lemma FittingOfFront(s: seq<byte>, room: nat, k: nat)
    requires |EscapeText(s)| > room && s != [] && k <= |s| - 1
    requires var front := s[..|s| - 1];
      |EscapeText(front[..k])| <= room && (k < |front| ==> |EscapeText(front[..k + 1])| > room)
    ensures |EscapeText(s[..k])| <= room && |EscapeText(s[..k + 1])| > room
  {
    hide EscapeText;
    PrefixOfFront(s, k);
    if k < |s| - 1 { PrefixOfFront(s, k + 1); } else { WholePrefix(s); }
  }

  /** The length of the longest prefix whose escape takes at most room characters. */
  function Fitting(s: seq<byte>, room: nat): (k: nat)
    ensures k <= |s| && |EscapeText(s[..k])| <= room
    ensures k < |s| ==> |EscapeText(s[..k + 1])| > room
  {
    if |EscapeText(s)| <= room then
      WholePrefix(s);
      |s|
    else
      var k := Fitting(s[..|s| - 1], room);
      FittingOfFront(s, room, k);
      k
  }

  lemma EscapeStep(s: seq<byte>, k: nat)
    requires k < |s|
    ensures EscapeText(s[..k + 1]) == EscapeText(s[..k]) + Escaped(s[k])
  {
    hide Escaped;
    assert s[..k + 1][..k] == s[..k];
  }

  lemma {:induction false} EscapeGrows(s: seq<byte>, i: nat, j: nat)
    requires i <= j <= |s|
    ensures |EscapeText(s[..i])| <= |EscapeText(s[..j])|
    decreases j
  {
    hide Escaped;
    if i < j {
      EscapeStep(s, j - 1);
      EscapeGrows(s, i, j - 1);
    }
  }

  /** A prefix that fits, and whose extension does not, is the longest one. */
  lemma FittingIs(s: seq<byte>, room: nat, k: nat)
    requires k <= |s| && |EscapeText(s[..k])| <= room
    requires k < |s| ==> |EscapeText(s[..k + 1])| > room
    ensures Fitting(s, room) == k
  {
    hide EscapeText;
    var f := Fitting(s, room);
    if f < k { EscapeGrows(s, f + 1, k); }
    if k < f { EscapeGrows(s, k + 1, f); }
  }

  lemma EscapeNothing(s: seq<byte>)
    ensures EscapeText(s[..0]) == []
  {
  }

  method ToEscaped(value: seq<byte>, out: array<byte>, size: int)
    requires IsText(value)
    requires out.Length >= 1 && size <= out.Length
    modifies out
    ensures HoldsText(out[..], EscapeText(value[..Fitting(value, Room(size))]))
    ensures forall k :: |EscapeText(value[..Fitting(value, Room(size))])| < k < out.Length ==> out[k] == old(out[k])
  {
    hide EscapeText, Fitting, IsText, HoldsText;
    var len := 0;
    var limit := size - 1;
    var i := 0;
    ghost var e := [];
    EscapeNothing(value);
    while i < |value| && len < limit
      invariant 0 <= i <= |value| && e == EscapeText(value[..i])
      invariant 0 <= len <= Room(size) && len == |e|
      invariant forall k :: 0 <= k < len ==> out[k] == e[k]
      invariant forall k :: len <= k < out.Length ==> out[k] == old(out[k])
    {
      var c := value[i];
      EscapeStep(value, i);
      if c == BACKSLASH || c == EQUALS || c == AMPERSAND || c == NEWLINE {
        if len + 1 < limit {
          out[len] := BACKSLASH;
          len := len + 1;
          out[len] :=
            if c == BACKSLASH then BACKSLASH else if c == EQUALS then 97 else if c == AMPERSAND then 98 else 110;
          len := len + 1;
        } else {
          FittingIs(value, Room(size), i);
          out[len] := 0;
          TextFromIndex(out[..], e);
          return;
        }
      } else {
        out[len] := c;
        len := len + 1;
      }
      e := e + Escaped(c);
      i := i + 1;
    }
    if i < |value| { EscapeStep(value, i); }
    FittingIs(value, Room(size), i);
    out[len] := 0;
    TextFromIndex(out[..], e);
  }

  // ---------- unescaping, in place or not ----------

  lemma {:induction false} UnescapeIsText(s: seq<byte>)
    requires IsText(s)
    ensures IsText(Unescape(s))
    decreases s
  {
    if s != [] {
      if PairLength(s) == 2 { UnescapeIsText(s[2..]); } else { UnescapeIsText(s[1..]); }
    }
  }

  /** What is left of the result behind done is what unescaping makes of the text behind r. */
  ghost predicate UnescapedBehind(s: seq<byte>, r: nat, whole: seq<byte>, done: nat) {
    r <= |s| && done <= |whole| && whole[done..] == Unescape(s[r..])
  }

  lemma UnescapedAll(s: seq<byte>)
    ensures UnescapedBehind(s, 0, Unescape(s), 0)
  {
    assert s[0..] == s && Unescape(s)[0..] == Unescape(s);
  }

  lemma UnescapedNothing(s: seq<byte>, whole: seq<byte>, done: nat)
    requires UnescapedBehind(s, |s|, whole, done)
    ensures done == |whole|
  {
    assert s[|s|..] == [];
  }

  lemma UnescapedNext(s: seq<byte>, r: nat, whole: seq<byte>, done: nat)
    requires r < |s| && UnescapedBehind(s, r, whole, done)
    ensures done < |whole|
    ensures if s[r] == BACKSLASH && r + 1 < |s|
            then whole[done] == PairMeaning(s[r + 1]) && UnescapedBehind(s, r + 2, whole, done + 1)
            else whole[done] == s[r] && UnescapedBehind(s, r + 1, whole, done + 1)
  {
    hide PairMeaning;
    var rest := whole[done..];
    assert s[r..][1..] == s[r + 1..];
    if r + 1 < |s| { assert s[r..][2..] == s[r + 2..]; }
    assert rest[0] == whole[done] && rest[1..] == whole[done + 1..];
  }

  method GetUnescaped(value: array<byte>, ghost text: seq<byte>, out: array<byte>, size: int)
    requires IsText(text) && HoldsText(value[..], text)
    requires out.Length >= 1 && size <= out.Length
    modifies out
    ensures var r := Unescape(text);
      HoldsText(out[..], if |r| <= Room(size) then r else r[..Room(size)])
    ensures forall k :: |Unescape(text)| < k < out.Length || Room(size) < k < out.Length ==> out[k] == old(out[k])
  {
    hide Unescape, PairMeaning, UnescapedBehind, IsText, HoldsText;
    ghost var whole := Unescape(text);
    var r, w := 0, 0;
    var left := size - 1;
    TextByIndex(value[..], text);
    UnescapedAll(text);
    while left > 0
      invariant 0 <= w <= r <= |text| && left == size - 1 - w
      invariant w <= |whole| && (w == 0 || w <= Room(size))
      invariant forall k :: r <= k < |text| ==> value[k] == text[k]
      invariant value[|text|] == 0
      invariant forall k :: 0 <= k < w ==> out[k] == whole[k]
      invariant forall k :: w <= k < out.Length ==> out[k] == old(out[k])
      invariant UnescapedBehind(text, r, whole, w)
    {
      var c := value[r];
      if c == 0 {
        UnescapedNothing(text, whole, w);
        break;
      }
      UnescapedNext(text, r, whole, w);
      if c == BACKSLASH {
        if value[r + 1] != 0 {
          r := r + 1;
          c := PairMeaning(value[r]);
        }
      }
      out[w] := c;
      r, w, left := r + 1, w + 1, left - 1;
    }
    out[w] := 0;
    TextFromIndex(out[..], if |whole| <= Room(size) then whole else whole[..Room(size)]);
  }
}
