/** Text in GBK, where a character takes one byte or two and a second byte can look like a separator. */
module Gbk {
  import opened Bytes
  import opened Characters
  import opened Sequences

  const SPACE: byte := 32

  // ---------- copying whole characters ----------

  /** strncpy of a whole source: what follows a NUL is copied as zeros. */
  function Copied(s: seq<byte>): (r: seq<byte>)
    ensures |r| == |s|
    ensures IsText(s) ==> r == s
  {
    seq(|s|, k requires 0 <= k < |s| => if 0 in s[..k] then 0 else s[k])
  }

  /** What stands before the first NUL is copied, and everything from there on is zero. */
  lemma CopiedStops(a: seq<byte>, b: seq<byte>, k: nat)
    requires IsText(a) && k < |a + [0] + b|
    ensures Copied(a + [0] + b)[k] == if k < |a| then a[k] else 0
  {
    var s := a + [0] + b;
    if k < |a| {
      assert s[..k] == a[..k];
    } else if k > |a| {
      assert s[..k][|a|] == 0;
    }
  }

  method StrNCpy(dst: array<byte>, src: seq<byte>)
    requires |src| <= dst.Length
    modifies dst
    ensures dst[..|src|] == Copied(src)
    ensures forall k :: |src| <= k < dst.Length ==> dst[k] == old(dst[k])
  {
    var i := 0;
    while i < |src| && src[i] != 0
      invariant 0 <= i <= |src| && 0 !in src[..i]
      invariant forall k :: 0 <= k < i ==> dst[k] == src[k]
      invariant forall k :: i <= k < dst.Length ==> dst[k] == old(dst[k])
    {
      dst[i] := src[i];
      i := i + 1;
    }
    forall k | i <= k < |src| { dst[k] := 0; }
    forall k | 0 <= k < |src|
      ensures dst[k] == Copied(src)[k]
    {
      assert k < i ==> src[..i][..k] == src[..k];
      assert k > i ==> src[..k][i] == 0;
    }
  }

  method StrncpyGbk(dst: array<byte>, dstLen: int, src: seq<byte>) returns (ret: nat)
    requires dst.Length >= 1 && dstLen <= dst.Length
    modifies dst
    ensures ret < dst.Length && ret <= |src| && dst[ret] == 0
    ensures forall k :: ret < k < dst.Length ==> dst[k] == old(dst[k])
    ensures |src| < dstLen ==> ret == |src| && dst[..ret] == Copied(src)
    // otherwise ret is the longest run of whole characters that leaves room for the terminator
    ensures |src| >= dstLen ==>
      && dst[..ret] == src[..ret] && (ret == 0 || ret < dstLen)
      && Reaches(GbkPairs, src, 0, ret)
      && forall k: nat :: Reaches(GbkPairs, src, 0, k) && k < dstLen ==> k <= ret
  {
    if |src| < dstLen {
      StrNCpy(dst, src);
      dst[|src|] := 0;
      return |src|;
    }
    ret := 0;
    var dstLeft, srcLeft := dstLen - 1, |src|;
    while dstLeft > 0 && srcLeft > 0
      invariant ret == 0 || ret < dstLen
      invariant dstLeft == dstLen - 1 - ret && srcLeft == |src| - ret && ret <= |src|
      invariant Reaches(GbkPairs, src, 0, ret)
      invariant forall k :: 0 <= k < ret ==> dst[k] == src[k]
      invariant forall k :: ret <= k < dst.Length ==> dst[k] == old(dst[k])
    {
      var c := src[ret];
      ReachesOn(GbkPairs, src, 0, ret);
      if c & 0x80 != 0 {
        if dstLeft <= 1 || srcLeft <= 1 {
          break;
        }
        dst[ret] := c;
        srcLeft, dstLeft := srcLeft - 1, dstLeft - 1;
        ret := ret + 1;
        c := src[ret];
      }
      dst[ret] := c;
      srcLeft, dstLeft := srcLeft - 1, dstLeft - 1;
      ret := ret + 1;
    }
    forall k: nat | Reaches(GbkPairs, src, 0, k) && k < dstLen
      ensures k <= ret
    {
      if ret < k { ReachedApart(GbkPairs, src, 0, ret, k); }
    }
    dst[ret] := 0;
  }

  // ---------- deleting a control character ----------

  predicate IsLead(b: byte) {
    b & 0x80 != 0
  }

  /** The characters of a text; a lead byte at the very end stands alone. */
  function Tokens(s: seq<byte>): seq<seq<byte>> {
    if s == [] then []
    else if IsLead(s[0]) && |s| >= 2 then [s[..2]] + Tokens(s[2..])
    else [s[..1]] + Tokens(s[1..])
  }

  /** A character that deleting ch takes away: the single ASCII byte ch. */
  predicate IsDeleted(t: seq<byte>, ch: byte) {
    t == [ch] && !IsLead(ch)
  }

  function Kept(ts: seq<seq<byte>>, ch: byte): seq<seq<byte>> {
    if ts == [] then []
    else (if IsDeleted(ts[0], ch) then [] else [ts[0]]) + Kept(ts[1..], ch)
  }

  function Deleted(s: seq<byte>, ch: byte): (r: seq<byte>)
    ensures |r| <= |s|
    ensures IsText(s) ==> IsText(r)
  {
    if s == [] then []
    else if IsLead(s[0]) then (if |s| == 1 then s else s[..2] + Deleted(s[2..], ch))
    else if s[0] == ch then Deleted(s[1..], ch)
    else [s[0]] + Deleted(s[1..], ch)
  }

  lemma TokensOfPair(a: byte, b: byte, rest: seq<byte>)
    requires IsLead(a)
    ensures Tokens([a, b] + rest) == [[a, b]] + Tokens(rest)
  {
    hide IsLead;
    var s := [a, b] + rest;
    assert s[2..] == rest && s[..2] == [a, b];
  }

  lemma TokensOfSingle(a: byte, rest: seq<byte>)
    requires !IsLead(a) || rest == []
    ensures Tokens([a] + rest) == [[a]] + Tokens(rest)
  {
    hide IsLead;
    var s := [a] + rest;
    assert s[1..] == rest && s[..1] == [a];
  }

  lemma LeadByRange(b: byte)
    ensures IsLead(b) <==> b >= 0x80
  {
  }

  lemma NoTokens()
    ensures Tokens([]) == []
  {
  }

  /** The characters by their first byte; what is deleted is the ASCII byte ch standing alone. */
  lemma TokensByRange(a: byte, b: byte, rest: seq<byte>, t: seq<byte>, ch: byte)
    ensures a >= 0x80 ==> Tokens([a, b] + rest) == [[a, b]] + Tokens(rest)
    ensures a < 0x80 ==> Tokens([a] + rest) == [[a]] + Tokens(rest)
    ensures Tokens([a]) == [[a]]
    ensures IsDeleted(t, ch) <==> ch < 0x80 && t == [ch]
  {
    hide Tokens, IsLead;
    LeadByRange(a);
    LeadByRange(ch);
    if a >= 0x80 { TokensOfPair(a, b, rest); } else { TokensOfSingle(a, rest); }
    TokensOfSingle(a, []);
    NoTokens();
    assert [a] + [] == [a];
  }

  lemma KeptStep(t: seq<byte>, ts: seq<seq<byte>>, ch: byte)
    ensures Kept([t] + ts, ch) == (if IsDeleted(t, ch) then [] else [t]) + Kept(ts, ch)
  {
    hide IsDeleted;
    assert ([t] + ts)[1..] == ts;
  }

  /** Deleting removes the characters equal to ch and keeps the boundaries of all others. */
  lemma {:induction false} DeletedCharacters(s: seq<byte>, ch: byte)
    ensures Tokens(Deleted(s, ch)) == Kept(Tokens(s), ch)
    decreases s
  {
    hide IsLead, Tokens;
    if s == [] {
      NoTokens();
    } else if IsLead(s[0]) && |s| >= 2 {
      DeletedCharacters(s[2..], ch);
      TokensOfPair(s[0], s[1], s[2..]);
      TokensOfPair(s[0], s[1], Deleted(s[2..], ch));
      assert s == [s[0], s[1]] + s[2..] && s[..2] == [s[0], s[1]];
      KeptStep([s[0], s[1]], Tokens(s[2..]), ch);
    } else {
      DeletedCharacters(s[1..], ch);
      TokensOfSingle(s[0], s[1..]);
      TokensOfSingle(s[0], if IsLead(s[0]) then [] else Deleted(s[1..], ch));
      assert s == [s[0]] + s[1..];
      assert [s[0]] + [] == [s[0]];
      KeptStep([s[0]], Tokens(s[1..]), ch);
      NoTokens();
    }
  }

  /** What is left of the result behind done is what deleting leaves of the text behind i. */
  ghost predicate DeletedBehind(s: seq<byte>, i: nat, ch: byte, whole: seq<byte>, done: nat) {
    i <= |s| && done <= |whole| && whole[done..] == Deleted(s[i..], ch)
  }

  lemma DeletedAll(s: seq<byte>, ch: byte)
    ensures DeletedBehind(s, 0, ch, Deleted(s, ch), 0)
  {
    assert s[0..] == s && Deleted(s, ch)[0..] == Deleted(s, ch);
  }

  lemma DeletedNothing(s: seq<byte>, ch: byte, whole: seq<byte>, done: nat)
    requires DeletedBehind(s, |s|, ch, whole, done)
    ensures done == |whole|
  {
    assert s[|s|..] == [];
  }

  lemma DeletedPair(s: seq<byte>, i: nat, ch: byte, whole: seq<byte>, done: nat)
    requires i < |s| && DeletedBehind(s, i, ch, whole, done) && IsLead(s[i])
    ensures done < |whole| && whole[done] == s[i]
    ensures i + 1 == |s| ==> done + 1 == |whole|
    ensures i + 1 < |s| ==>
      done + 1 < |whole| && whole[done + 1] == s[i + 1] && DeletedBehind(s, i + 2, ch, whole, done + 2)
  {
    hide IsLead;
    var rest := whole[done..];
    assert rest[0] == whole[done];
    if i + 1 < |s| {
      assert s[i..][2..] == s[i + 2..];
      assert rest[1] == whole[done + 1] && rest[2..] == whole[done + 2..];
    }
  }

  lemma DeletedSingle(s: seq<byte>, i: nat, ch: byte, whole: seq<byte>, done: nat)
    requires i < |s| && DeletedBehind(s, i, ch, whole, done) && !IsLead(s[i])
    ensures s[i] == ch ==> DeletedBehind(s, i + 1, ch, whole, done)
    ensures s[i] != ch ==> done < |whole| && whole[done] == s[i] && DeletedBehind(s, i + 1, ch, whole, done + 1)
  {
    hide IsLead;
    var rest := whole[done..];
    assert s[i..][1..] == s[i + 1..];
    if s[i] != ch {
      assert rest[0] == whole[done] && rest[1..] == whole[done + 1..];
    }
  }

  method DeleteCtrlCharFromGbk(gbk: array?<byte>, ghost text: seq<byte>, ch: byte)
    requires gbk != null ==> IsText(text) && HoldsText(gbk[..], text)
    modifies gbk
    ensures gbk != null ==> HoldsText(gbk[..], Deleted(text, ch))
    ensures gbk != null ==> forall k :: |text| < k < gbk.Length ==> gbk[k] == old(gbk[k])
  {
    hide Deleted, IsText, IsLead, DeletedBehind, HoldsText;
    if gbk == null {
      return;
    }
    var target, source := 0, 0;
    ghost var whole := Deleted(text, ch);
    TextByIndex(gbk[..], text);
    DeletedAll(text, ch);
    while gbk[source] != 0
      invariant 0 <= target <= source <= |text| < gbk.Length && target <= |whole|
      invariant forall k :: source <= k < |text| ==> gbk[k] == text[k]
      invariant forall k :: |text| <= k < gbk.Length ==> gbk[k] == old(gbk[k])
      invariant forall k :: 0 <= k < target ==> gbk[k] == whole[k]
      invariant DeletedBehind(text, source, ch, whole, target)
      decreases |text| - source
    {
      if IsLead(gbk[source]) {
        DeletedPair(text, source, ch, whole, target);
        gbk[target] := gbk[source];
        target, source := target + 1, source + 1;
        if gbk[source] == 0 {
          break;
        }
        gbk[target] := gbk[source];
        target, source := target + 1, source + 1;
      } else if gbk[source] == ch {
        DeletedSingle(text, source, ch, whole, target);
        source := source + 1;
      } else {
        DeletedSingle(text, source, ch, whole, target);
        gbk[target] := gbk[source];
        target, source := target + 1, source + 1;
      }
    }
    if target != |whole| { DeletedNothing(text, ch, whole, target); }
    gbk[target] := 0;
    TextFromIndex(gbk[..], whole);
  }

  // ---------- reading columns ----------

  predicate IsGbk(p0: byte, p1: byte) {
    0x81 <= p0 <= 0xFE && 0x40 <= p1 <= 0xFE
  }

  /** The bytes before the first separator that is a character of its own. */
  function ColumnLength(s: seq<byte>, sep: byte): (n: nat)
    ensures n <= |s|
    ensures n < |s| ==> s[n] == sep
  {
    if s == [] || s[0] == sep then 0
    else if |s| >= 2 && IsGbk(s[0], s[1]) then 2 + ColumnLength(s[2..], sep)
    else 1 + ColumnLength(s[1..], sep)
  }

  /** As much of a column as a buffer of dstLen bytes holds with its terminator. */
  function Cut(c: seq<byte>, dstLen: nat): seq<byte>
    requires dstLen >= 1
  {
    if |c| < dstLen then c else c[..dstLen - 1]
  }

  /** What ReadColumn leaves in a buffer of dstLen bytes. */
  function ColumnText(s: seq<byte>, sep: byte, dstLen: nat): seq<byte>
    requires dstLen >= 1
  {
    Trim(Cut(s[..ColumnLength(s, sep)], dstLen), SPACE)
  }

  /** Cuts the spaces off the end of the first n bytes; the result is what remains of them. */
  method TrimEndInPlace(dst: array<byte>, n: nat) returns (m: nat)
    requires n < dst.Length && IsText(dst[..n])
    modifies dst
    ensures m <= n && HoldsText(dst[..], TrimEnd(old(dst[..n]), SPACE)) && m == |TrimEnd(old(dst[..n]), SPACE)|
    ensures IsText(dst[..m])
    ensures forall k :: n < k < dst.Length ==> dst[k] == old(dst[k])
  {
    hide TrimEnd;
    ghost var raw := dst[..n];
    var j := n - 1;
    while j >= 0 && dst[j] == SPACE
      modifies {}
      invariant -1 <= j < n
      invariant forall k :: j < k < n ==> raw[k] == SPACE
    {
      j := j - 1;
    }
    TrimEndIs(raw, SPACE, j + 1);
    m := j + 1;
    dst[m] := 0;
    assert dst[..m] == raw[..m];
  }

  /** memmove of n bytes to the start of the buffer. */
  method MoveDown(dst: array<byte>, from: nat, n: nat)
    requires from + n <= dst.Length
    modifies dst
    ensures dst[..n] == old(dst[from..from + n])
    ensures forall k :: n <= k < dst.Length ==> dst[k] == old(dst[k])
  {
    forall p | 0 <= p < n { dst[p] := dst[p + from]; }
  }

  /** Moves a text of length m to the front of the buffer, over its leading spaces. */
  method TrimStartInPlace(dst: array<byte>, m: nat)
    requires m < dst.Length && IsText(dst[..m]) && dst[m] == 0
    modifies dst
    ensures HoldsText(dst[..], TrimStart(old(dst[..m]), SPACE))
    ensures forall k :: m < k < dst.Length ==> dst[k] == old(dst[k])
  {
    hide TrimStart;
    ghost var text := dst[..m];
    var k := 0;
    while dst[k] == SPACE
      modifies {}
      invariant 0 <= k <= m
      invariant forall p :: 0 <= p < k ==> text[p] == SPACE
      decreases m - k
    {
      k := k + 1;
    }
    TrimStartIs(text, SPACE, k);
    assert dst[k..m + 1] == text[k..] + [0];
    if k != 0 {
      MoveDown(dst, k, m + 1 - k);
    }
    assert dst[..m + 1 - k] == text[k..] + [0];
  }

  /** Trims the first n bytes of the buffer where they stand. */
  method TrimInPlace(dst: array<byte>, n: nat)
    requires n < dst.Length && IsText(dst[..n])
    modifies dst
    ensures HoldsText(dst[..], Trim(old(dst[..n]), SPACE))
    ensures forall k :: n < k < dst.Length ==> dst[k] == old(dst[k])
  {
    hide TrimEnd, TrimStart, IsText;
    var m := TrimEndInPlace(dst, n);
    TrimStartInPlace(dst, m);
  }

  lemma ColumnStep(s: seq<byte>, i: nat, sep: byte)
    requires i <= |s|
    ensures i == |s| || s[i] == sep ==> ColumnLength(s[i..], sep) == 0
    ensures i < |s| && s[i] != sep ==>
      ColumnLength(s[i..], sep)
      == if i + 1 < |s| && IsGbk(s[i], s[i + 1]) then 2 + ColumnLength(s[i + 2..], sep)
         else 1 + ColumnLength(s[i + 1..], sep)
  {
    if i < |s| { assert s[i..][1..] == s[i + 1..]; }
    if i + 1 < |s| { assert s[i..][2..] == s[i + 2..]; }
  }

  /** The column goes on behind its first i bytes. */
  ghost predicate InColumn(s: seq<byte>, i: nat, sep: byte) {
    i <= |s| && i + ColumnLength(s[i..], sep) == ColumnLength(s, sep)
  }

  lemma ColumnStarts(s: seq<byte>, sep: byte)
    ensures InColumn(s, 0, sep)
  {
    assert s[0..] == s;
  }

  lemma ColumnGoesOn(s: seq<byte>, i: nat, sep: byte)
    requires InColumn(s, i, sep)
    ensures i == |s| || s[i] == sep ==> ColumnLength(s, sep) == i
    ensures i < |s| && s[i] != sep ==>
      InColumn(s, if i + 1 < |s| && IsGbk(s[i], s[i + 1]) then i + 2 else i + 1, sep)
  {
    hide ColumnLength, IsGbk;
    ColumnStep(s, i, sep);
  }

  lemma CutByIndex(buffer: seq<byte>, s: seq<byte>, i: nat, dstLen: nat)
    requires IsText(s) && i <= |s| && 1 <= dstLen <= |buffer|
    requires forall k :: 0 <= k < i && k < dstLen - 1 ==> buffer[k] == s[k]
    ensures var n := if i < dstLen - 1 then i else dstLen - 1;
      buffer[..n] == Cut(s[..i], dstLen) && IsText(buffer[..n])
  {
    var n := if i < dstLen - 1 then i else dstLen - 1;
    assert buffer[..n] == s[..n] == Cut(s[..i], dstLen);
  }

  /** Reads one column of a text; the result is the position to read the next column from. */
  method ReadColumn(src: seq<byte>, sep: byte, dst: array<byte>, dstLen: int) returns (next: nat)
    requires IsText(src) && 1 <= dstLen <= dst.Length
    modifies dst
    ensures HoldsText(dst[..], ColumnText(src, sep, dstLen))
    ensures forall k :: dstLen <= k < dst.Length ==> dst[k] == old(dst[k])
    ensures var n := ColumnLength(src, sep); next == if n == |src| then n else n + 1
  {
    hide ColumnLength, Trim, InColumn, IsGbk, Cut, IsText, HoldsText;
    var i := 0;
    ColumnStarts(src, sep);
    while true
      invariant 0 <= i <= |src| && InColumn(src, i, sep)
      invariant forall k :: 0 <= k < i && k < dstLen - 1 ==> dst[k] == src[k]
      invariant forall k :: dstLen <= k < dst.Length ==> dst[k] == old(dst[k])
      decreases |src| - i
    {
      ColumnGoesOn(src, i, sep);
      if i == |src| || src[i] == sep {
        CutByIndex(dst[..], src, i, dstLen);
        var n := if i < dstLen - 1 then i else dstLen - 1;
        TrimInPlace(dst, n);
        return i + (if i == |src| then 0 else 1);
      }
      if i < dstLen - 1 {
        dst[i] := src[i];
      }
      // the byte behind the last one is NUL, which ends no pair
      if i + 1 < |src| && IsGbk(src[i], src[i + 1]) {
        i := i + 1;
        if i < dstLen - 1 {
          dst[i] := src[i];
        }
      }
      i := i + 1;
    }
  }

  // ---------- what is read, by the bytes ----------

  /** A byte from 0x81 to 0xFE and one from 0x40 to 0xFE behind it are read together, whatever the separator. */
  lemma PairIsRead(p0: byte, p1: byte, rest: seq<byte>, sep: byte)
    requires 0x81 <= p0 <= 0xFE && 0x40 <= p1 <= 0xFE && sep < 0x80
    ensures ColumnLength([p0, p1] + rest, sep) == 2 + ColumnLength(rest, sep)
  {
    var s := [p0, p1] + rest;
    assert s[2..] == rest;
  }

  /** Any other byte is read alone, and a separator read alone ends the column. */
  lemma ByteIsRead(b: byte, rest: seq<byte>, sep: byte)
    requires !(0x81 <= b <= 0xFE && rest != [] && 0x40 <= rest[0] <= 0xFE)
    ensures ColumnLength([b] + rest, sep) == if b == sep then 0 else 1 + ColumnLength(rest, sep)
  {
    var s := [b] + rest;
    assert s[1..] == rest && (rest != [] ==> s[1] == rest[0]);
  }

  /** A witness: under '|' the character 95 7C is read whole before the separator 7C behind it. */
  lemma SeparatorByteInsidePair()
    ensures ColumnLength([0x95, 0x7C, 0x7C, 0x41], 0x7C) == 2
  {
    assert [0x95, 0x7C, 0x7C, 0x41] == [0x95, 0x7C] + [0x7C, 0x41];
    PairIsRead(0x95, 0x7C, [0x7C, 0x41], 0x7C);
    assert [0x7C, 0x41] == [0x7C] + [0x41];
    ByteIsRead(0x7C, [0x41], 0x7C);
  }

  predicate AreSpaces(s: seq<byte>) {
    forall k :: 0 <= k < |s| ==> s[k] == 32
  }

  /** The bytes trimmed off are the spaces at both ends. */
  lemma TrimmedBytes(front: seq<byte>, c: seq<byte>, back: seq<byte>)
    requires AreSpaces(front) && AreSpaces(back)
    requires c != [] && c[0] != 32 && c[|c| - 1] != 32
    ensures Trim(front + c + back, SPACE) == c
  {
    hide TrimEnd, TrimStart;
    var s := front + c + back;
    TrimEndIs(s, SPACE, |front + c|);
    assert s[..|front + c|] == front + c;
    TrimStartIs(front + c, SPACE, |front|);
    assert (front + c)[|front|..] == c;
  }

  lemma SpacesVanish(s: seq<byte>)
    requires AreSpaces(s)
    ensures Trim(s, SPACE) == []
  {
    hide TrimEnd, TrimStart;
    TrimEndIs(s, SPACE, 0);
    TrimStartIs([], SPACE, 0);
    assert s[..0] == [] && s[..0][0..] == [];
  }

  // ---------- printing columns and reading them back ----------

  /** Characters of a column: ASCII other than the separator, or pairs whose second byte may be anything GBK allows. */
  predicate IsColumn(c: seq<byte>, sep: byte) {
    c == []
    || (c[0] < 0x80 && c[0] != sep && c[0] != 0 && IsColumn(c[1..], sep))
    || (|c| >= 2 && IsGbk(c[0], c[1]) && IsColumn(c[2..], sep))
  }

  /** Every pair by these ranges is a character of columns, and so is every ASCII byte but NUL and the separator. */
  lemma ColumnsByRange(p0: byte, p1: byte, c: seq<byte>, sep: byte)
    requires IsColumn(c, sep)
    ensures 0x81 <= p0 <= 0xFE && 0x40 <= p1 <= 0xFE ==> IsColumn([p0, p1] + c, sep)
    ensures 0 < p0 < 0x80 && p0 != sep ==> IsColumn([p0] + c, sep)
  {
    assert ([p0, p1] + c)[2..] == c && ([p0] + c)[1..] == c;
  }

  function Joined(columns: seq<seq<byte>>, sep: byte): seq<byte> {
    if columns == [] then []
    else if |columns| == 1 then columns[0]
    else columns[0] + [sep] + Joined(columns[1..], sep)
  }

  /** The texts of n successive calls, each reading from where the one before it stopped. */
  function ReadColumns(s: seq<byte>, sep: byte, dstLen: nat, n: nat): seq<seq<byte>>
    requires dstLen >= 1
    decreases n
  {
    if n == 0 then []
    else
      var k := ColumnLength(s, sep);
      [ColumnText(s, sep, dstLen)] + ReadColumns(s[if k == |s| then k else k + 1..], sep, dstLen, n - 1)
  }

  function Trimmed(columns: seq<seq<byte>>, dstLen: nat): seq<seq<byte>>
    requires dstLen >= 1
  {
    if columns == [] then [] else [Trim(Cut(columns[0], dstLen), SPACE)] + Trimmed(columns[1..], dstLen)
  }

  /** A column ends at the separator or end of text that follows it, not at a byte inside a pair. */
  lemma {:induction false} ColumnEndsAtSeparator(c: seq<byte>, rest: seq<byte>, sep: byte)
    requires 0 < sep < 0x80 && IsColumn(c, sep) && (rest == [] || rest[0] == sep)
    ensures ColumnLength(c + rest, sep) == |c|
    decreases c
  {
    hide ColumnLength;
    var s := c + rest;
    ColumnStep(s, 0, sep);
    assert s[0..] == s;
    if c == [] {
      assert s == rest;
    } else if c[0] < 0x80 {
      assert s[1..] == c[1..] + rest;
      ColumnEndsAtSeparator(c[1..], rest, sep);
    } else {
      assert s[2..] == c[2..] + rest && s[1] == c[1];
      ColumnEndsAtSeparator(c[2..], rest, sep);
    }
  }

  predicate AreColumns(columns: seq<seq<byte>>, sep: byte) {
    forall i :: 0 <= i < |columns| ==> IsColumn(columns[i], sep)
  }

  lemma NoColumns(sep: byte, dstLen: nat)
    requires dstLen >= 1
    ensures ReadColumns(Joined([], sep), sep, dstLen, 0) == Trimmed([], dstLen)
  {
  }

  lemma JoinedStep(columns: seq<seq<byte>>, sep: byte) returns (rest: seq<byte>)
    requires AreColumns(columns, sep) && columns != []
    ensures IsColumn(columns[0], sep) && AreColumns(columns[1..], sep)
    ensures Joined(columns, sep) == columns[0] + rest
    ensures rest == if |columns| == 1 then [] else [sep] + Joined(columns[1..], sep)
    ensures |columns| == 1 ==> Joined(columns[1..], sep) == []
    ensures rest == [] || rest[0] == sep
  {
    hide IsColumn;
    rest := if |columns| == 1 then [] else [sep] + Joined(columns[1..], sep);
    assert Joined(columns, sep) == columns[0] + rest;
  }

  lemma ReadColumnsUnfold(s: seq<byte>, sep: byte, dstLen: nat, n: nat)
    requires dstLen >= 1 && n > 0
    ensures var k := ColumnLength(s, sep);
      ReadColumns(s, sep, dstLen, n)
      == [ColumnText(s, sep, dstLen)] + ReadColumns(s[if k == |s| then k else k + 1..], sep, dstLen, n - 1)
  {
    hide ColumnText, ColumnLength;
  }

  lemma TrimmedUnfold(columns: seq<seq<byte>>, dstLen: nat)
    requires dstLen >= 1 && columns != []
    ensures Trimmed(columns, dstLen) == [Trim(Cut(columns[0], dstLen), SPACE)] + Trimmed(columns[1..], dstLen)
  {
    hide Trim, Cut;
  }

  /** One call more: the first column, then the columns of what is left. */
  lemma RowStep(columns: seq<seq<byte>>, s: seq<byte>, next: seq<byte>, sep: byte, dstLen: nat)
    requires dstLen >= 1 && columns != []
    requires ColumnText(s, sep, dstLen) == Trim(Cut(columns[0], dstLen), SPACE)
    requires var k := ColumnLength(s, sep); s[if k == |s| then k else k + 1..] == next
    requires ReadColumns(next, sep, dstLen, |columns| - 1) == Trimmed(columns[1..], dstLen)
    ensures ReadColumns(s, sep, dstLen, |columns|) == Trimmed(columns, dstLen)
  {
    ReadColumnsUnfold(s, sep, dstLen, |columns|);
    TrimmedUnfold(columns, dstLen);
    hide *;
  }

  lemma FirstColumn(c: seq<byte>, rest: seq<byte>, next: seq<byte>, sep: byte, dstLen: nat)
    requires dstLen >= 1 && ColumnLength(c + rest, sep) == |c|
    requires rest == (if next == [] && rest == [] then [] else [sep] + next)
    ensures ColumnText(c + rest, sep, dstLen) == Trim(Cut(c, dstLen), SPACE)
    ensures var s := c + rest; s[if |c| == |s| then |c| else |c| + 1..] == next
  {
    hide Trim, ColumnLength, Cut;
    assert (c + rest)[..|c|] == c;
  }

  /** Reading a joined row column by column gives every column, trimmed and cut to the buffer. */
  lemma {:induction false} ReadColumnsOfJoined(columns: seq<seq<byte>>, sep: byte, dstLen: nat)
    requires 0 < sep < 0x80 && dstLen >= 1
    requires AreColumns(columns, sep)
    ensures ReadColumns(Joined(columns, sep), sep, dstLen, |columns|) == Trimmed(columns, dstLen)
    decreases columns
  {
    hide *;
    if columns == [] {
      NoColumns(sep, dstLen);
    } else {
      var c, tail := columns[0], Joined(columns[1..], sep);
      var rest := JoinedStep(columns, sep);
      ColumnEndsAtSeparator(c, rest, sep);
      FirstColumn(c, rest, tail, sep, dstLen);
      ReadColumnsOfJoined(columns[1..], sep, dstLen);
      RowStep(columns, c + rest, tail, sep, dstLen);
    }
  }

  // ---------- one notion of a character ----------

  function ReaderSize(s: seq<byte>, i: nat): nat
    requires i < |s|
  {
    if i + 1 < |s| && IsGbk(s[i], s[i + 1]) then 2 else 1
  }

  /** Positions the column reader stops at when it counts characters off from i. */
  ghost predicate ReaderReaches(s: seq<byte>, i: nat, k: nat)
    decreases k - i
  {
    i == k || (i < k && i < |s| && ReaderReaches(s, i + ReaderSize(s, i), k))
  }

  lemma LeadBytes(b: byte)
    ensures IsLead(b) <==> b >= 0x80
    ensures CharSize(GbkPairs, b) == if IsLead(b) then 2 else 1
  {
  }

  /** The first character of what is left of a column. */
  lemma ColumnCharacter(c: seq<byte>, i: nat, sep: byte)
    requires i < |c| && IsColumn(c[i..], sep)
    ensures var n := CharSize(GbkPairs, c[i]);
      && n <= 2 && i + n <= |c| && IsColumn(c[i + n..], sep) && n == ReaderSize(c, i)
      && (n == 1 ==> c[i] < 0x80 && c[i] != sep && c[i] != 0)
      && (n == 2 ==> IsGbk(c[i], c[i + 1]))
  {
    LeadBytes(c[i]);
    assert c[i..][0] == c[i] && c[i..][1..] == c[i + 1..];
    if c[i] >= 0x80 {
      assert c[i..][1] == c[i + 1] && c[i..][2..] == c[i + 2..];
    }
  }

  /** On columns the copier, which goes by lead bytes, and the reader, which goes by pairs, see the same characters. */
  lemma {:induction false} CharactersAgree(c: seq<byte>, i: nat, k: nat, sep: byte)
    requires i <= |c| && IsColumn(c[i..], sep)
    ensures Reaches(GbkPairs, c, i, k) <==> ReaderReaches(c, i, k)
    decreases k - i
  {
    hide IsColumn, CharSize, ReaderSize;
    if i < k && i < |c| {
      ColumnCharacter(c, i, sep);
      CharactersAgree(c, i + CharSize(GbkPairs, c[i]), k, sep);
    }
  }

  lemma TokensUnfold(s: seq<byte>)
    requires s != [] && CharSize(GbkPairs, s[0]) <= |s|
    ensures var n := CharSize(GbkPairs, s[0]); Tokens(s) == [s[..n]] + Tokens(s[n..])
  {
    LeadBytes(s[0]);
  }

  /** The deleter's characters of a column are the copier's: each is the next one that its first byte announces. */
  lemma TokensAgree(c: seq<byte>, i: nat, sep: byte)
    requires i < |c| && IsColumn(c[i..], sep)
    ensures var n := CharSize(GbkPairs, c[i]);
      i + n <= |c| && Tokens(c[i..]) == [c[i..i + n]] + Tokens(c[i + n..])
  {
    hide IsColumn, Tokens, CharSize, ReaderSize;
    ColumnCharacter(c, i, sep);
    TokensUnfold(c[i..]);
    var n := CharSize(GbkPairs, c[i]);
    assert c[i..][n..] == c[i + n..] && c[i..][..n] == c[i..i + n];
  }

  /** A cut of a column consists of whole characters exactly where a character ends. */
  lemma {:induction false} PrefixWhole(c: seq<byte>, i: nat, n: nat, sep: byte)
    requires i <= n <= |c| && IsColumn(c[i..], sep)
    ensures IsColumn(c[i..n], sep) <==> Reaches(GbkPairs, c, i, n)
    decreases n - i
  {
    hide CharSize, ReaderSize;
    if i < n {
      ColumnCharacter(c, i, sep);
      var size := CharSize(GbkPairs, c[i]);
      assert c[i..n][1..] == c[i + 1..n];
      if i + size <= n {
        assert size == 2 ==> c[i..n][2..] == c[i + 2..n] && c[i..n][1] == c[i + 1];
        PrefixWhole(c, i + size, n, sep);
      }
    }
  }

  // ---------- cut columns ----------

  lemma ColumnUnfolds(c: seq<byte>, sep: byte)
    ensures IsColumn(c, sep) <==>
      || c == []
      || (c[0] < 0x80 && c[0] != sep && c[0] != 0 && IsColumn(c[1..], sep))
      || (|c| >= 2 && IsGbk(c[0], c[1]) && IsColumn(c[2..], sep))
  {
  }

  /** A space is never the second byte of a pair, so one more at the end leaves whole characters whole. */
  lemma {:induction false} SpaceBehind(c: seq<byte>, sep: byte)
    requires sep != SPACE
    ensures IsColumn(c + [SPACE], sep) <==> IsColumn(c, sep)
    decreases c
  {
    hide IsColumn;
    var s := c + [SPACE];
    ColumnUnfolds(c, sep);
    ColumnUnfolds(s, sep);
    ColumnUnfolds([], sep);
    if c != [] {
      assert s[1..] == c[1..] + [SPACE];
      SpaceBehind(c[1..], sep);
    } else {
      assert s[1..] == [];
    }
    if |c| >= 2 {
      assert s[2..] == c[2..] + [SPACE];
      SpaceBehind(c[2..], sep);
    }
  }

  lemma {:induction false} TrimEndKeepsWhole(c: seq<byte>, sep: byte)
    requires sep != SPACE
    ensures IsColumn(TrimEnd(c, SPACE), sep) <==> IsColumn(c, sep)
    decreases c
  {
    hide IsColumn;
    if c != [] && c[|c| - 1] == SPACE {
      var front := c[..|c| - 1];
      assert c == front + [SPACE];
      SpaceBehind(front, sep);
      TrimEndKeepsWhole(front, sep);
    }
  }

  lemma {:induction false} TrimStartKeepsWhole(c: seq<byte>, sep: byte)
    requires sep != SPACE
    ensures IsColumn(TrimStart(c, SPACE), sep) <==> IsColumn(c, sep)
    decreases c
  {
    hide IsColumn;
    if c != [] && c[0] == SPACE {
      ColumnUnfolds(c, sep);
      TrimStartKeepsWhole(c[1..], sep);
    }
  }

  /** Columns separated by spaces contain none, not even as second bytes. */
  lemma {:induction false} NoSpaces(c: seq<byte>)
    requires IsColumn(c, SPACE)
    ensures SPACE !in c
    decreases c
  {
    hide IsColumn;
    ColumnUnfolds(c, SPACE);
    if c != [] && c[0] < 0x80 {
      assert c == [c[0]] + c[1..];
      NoSpaces(c[1..]);
    } else if c != [] {
      assert c == [c[0], c[1]] + c[2..];
      NoSpaces(c[2..]);
    }
  }

  /** Trimming leaves a text without spaces alone. */
  lemma NothingToTrim(c: seq<byte>)
    requires SPACE !in c
    ensures Trim(c, SPACE) == c
  {
  }

  lemma TrimKeepsWhole(c: seq<byte>, n: nat, sep: byte)
    requires n <= |c| && IsColumn(c, sep)
    ensures IsColumn(Trim(c[..n], SPACE), sep) <==> IsColumn(c[..n], sep)
  {
    hide IsColumn, TrimEnd, TrimStart;
    if sep == SPACE {
      NoSpaces(c);
      NothingToTrim(c[..n]);
    } else {
      TrimEndKeepsWhole(c[..n], sep);
      TrimStartKeepsWhole(TrimEnd(c[..n], SPACE), sep);
    }
  }

  /** What the reader leaves of a column consists of whole characters exactly when it does not cut one in two. */
  lemma ColumnCutExact(c: seq<byte>, rest: seq<byte>, sep: byte, dstLen: nat)
    requires 0 < sep < 0x80 && IsColumn(c, sep) && (rest == [] || rest[0] == sep) && dstLen >= 1
    ensures IsColumn(ColumnText(c + rest, sep, dstLen), sep)
       <==> |c| < dstLen || Reaches(GbkPairs, c, 0, dstLen - 1)
  {
    hide IsColumn, ColumnLength, Trim, Reaches;
    ColumnEndsAtSeparator(c, rest, sep);
    var n := if |c| < dstLen then |c| else dstLen - 1;
    assert (c + rest)[..|c|] == c && Cut(c, dstLen) == c[..n] == c[0..n] && c[0..] == c;
    TrimKeepsWhole(c, n, sep);
    PrefixWhole(c, 0, n, sep);
    assert c[..|c|] == c;
  }
}
