/** Looking a parameter up in a record of key=value fields. */
module KeyedRecord {
  import opened Bytes
  import opened Escape

  const KEY_BUFFER := 100

  /** strstr: the position of the first occurrence of key in s, or -1. */
  function Find(s: seq<byte>, key: seq<byte>): (p: int)
    ensures p >= 0 ==> p + |key| <= |s| && s[p..p + |key|] == key
    ensures -1 <= p
  {
    if key <= s then 0
    else if s == [] then -1
    else
      var p := Find(s[1..], key);
      if p < 0 then -1 else p + 1
  }

  function Search(first: byte, para: seq<byte>, second: byte): seq<byte> {
    [first] + para + [second]
  }

  /** Where the value of a parameter starts in the source, or -1 when the parameter is not found. */
  function ValueStart(src: seq<byte>, para: seq<byte>, first: byte, second: byte): int {
    if para + [second] <= src then |para| + 1
    else
      var key := Search(first, para, second);
      var p := Find(src, if |key| < KEY_BUFFER then key else key[..KEY_BUFFER - 1]);
      if p < 0 then -1 else p + |key|
  }

  /** The characters up to the first separator, but no more than room of them. */
  function Field(s: seq<byte>, first: byte, room: nat): (f: seq<byte>)
    ensures f <= s && |f| <= room && first !in f
  {
    if s == [] || s[0] == first || room == 0 then []
    else [s[0]] + Field(s[1..], first, room - 1)
  }

  /** What GetPara leaves in its buffer. */
  function ParaText(src: seq<byte>, para: seq<byte>, first: byte, second: byte, size: int): seq<byte> {
    var start := ValueStart(src, para, first, second);
    if start < 0 || start > |src| then [] else Unescape(Field(src[start..], first, Room(size)))
  }

  /** A key that the search buffer holds in full is skipped in full. */
  lemma ShortKeysStayInside(src: seq<byte>, para: seq<byte>, first: byte, second: byte)
    requires |para| <= 97
    ensures ValueStart(src, para, first, second) <= |src|
  {
  }

  /** The search finds the first place where the key stands, if there is one. */
  lemma {:induction false} FindIsFirst(s: seq<byte>, key: seq<byte>, q: nat)
    requires q + |key| <= |s| && s[q..q + |key|] == key
    ensures 0 <= Find(s, key) <= q
    decreases s
  {
    if q == 0 {
      assert key <= s;
    } else {
      assert s[1..][q - 1..q - 1 + |key|] == s[q..q + |key|];
      FindIsFirst(s[1..], key, q - 1);
    }
  }

  /**
    Where the value starts: behind the parameter and the second separator at the very front, else behind the
    first place where the first separator, the parameter and the second separator stand together.
   */
  lemma ValueStartExact(src: seq<byte>, para: seq<byte>, first: byte, second: byte, q: nat)
    requires |para| <= 97
    ensures var start := ValueStart(src, para, first, second);
      var key := [first] + para + [second];
      if para + [second] <= src then start == |para| + 1
      else
        && (start == -1 || (|para| + 2 <= start <= |src| && src[start - |key|..start] == key))
        && (q + |key| <= |src| && src[q..q + |key|] == key ==> |key| <= start <= q + |key|)
  {
    hide Find;
    var key := Search(first, para, second);
    if q + |key| <= |src| && src[q..q + |key|] == key { FindIsFirst(src, key, q); }
  }

  lemma HeadsDiffer(x: seq<byte>, s: seq<byte>)
    requires x != [] && s != [] && x[0] != s[0]
    ensures !(x <= s)
  {
  }

  lemma FoundAtOnce(s: seq<byte>, key: seq<byte>)
    requires key <= s
    ensures Find(s, key) == 0
  {
  }

  lemma TextOfKey(para: seq<byte>, first: byte)
    requires |para| + 2 >= KEY_BUFFER
    ensures IsText(para) && first != 0 ==> IsText([first] + para[..KEY_BUFFER - 2])
  {
  }

  /** A longer key is skipped in full although it is searched for cut: from this source, beyond the terminator. */
  lemma LongKeyLeaves(para: seq<byte>, first: byte, second: byte) returns (src: seq<byte>)
    requires |para| >= 98 && first !in para
    ensures |src| == 99 && ValueStart(src, para, first, second) == |para| + 2 > |src|
    ensures IsText(para) && first != 0 ==> IsText(src)
  {
    hide Find, IsText;
    var key := Search(first, para, second);
    src := key[..KEY_BUFFER - 1];
    assert src[0] == first && para[0] != first;
    HeadsDiffer(para + [second], src);
    FoundAtOnce(src, src);
    TextOfKey(para, first);
    assert src == [first] + para[..KEY_BUFFER - 2];
  }

  lemma {:induction false} FieldIsText(s: seq<byte>, first: byte, room: nat)
    requires IsText(s)
    ensures IsText(Field(s, first, room))
  {
    if s != [] && s[0] != first && room > 0 { FieldIsText(s[1..], first, room - 1); }
  }

  lemma FieldUnfolds(t: seq<byte>, first: byte, room: nat)
    ensures Field(t, first, room)
         == if t == [] || t[0] == first || room == 0 then [] else [t[0]] + Field(t[1..], first, room - 1)
  {
  }

  lemma FieldStops(s: seq<byte>, first: byte, room: nat)
    requires s == [] || s[0] == first || room == 0
    ensures Field(s, first, room) == []
  {
  }

  /** The character at a position is the next one of the field. */
  lemma FieldGoesOn(s: seq<byte>, at: nat, first: byte, room: nat, field: seq<byte>, n: nat)
    requires at < |s| && s[at] != first && room > 0
    requires n <= |field| && field[n..] == Field(s[at..], first, room)
    ensures n < |field| && field[n] == s[at]
    ensures field[n + 1..] == Field(s[at + 1..], first, room - 1)
  {
    hide Field;
    FieldUnfolds(s[at..], first, room);
    assert s[at..][1..] == s[at + 1..];
    assert field[n..][0] == field[n] && field[n..][1..] == field[n + 1..];
  }

  /** Copies the raw field at start into the buffer, up to a separator or the end of the room. */
  method CopyField(src: seq<byte>, start: nat, dst: array<byte>, size: int, first: byte)
    requires start <= |src| && dst.Length >= 1 && size <= dst.Length
    modifies dst
    ensures HoldsText(dst[..], Field(src[start..], first, Room(size)))
    ensures forall k :: Room(size) < k < dst.Length ==> dst[k] == old(dst[k])
  {
    hide Field;
    var n := 0;
    var left := size - 1;
    ghost var field := Field(src[start..], first, Room(size));
    while left > 0
      invariant 0 <= n <= Room(size) && start + n <= |src| && n <= |field|
      invariant left == size - 1 - n
      invariant forall k :: 0 <= k < n ==> dst[k] == field[k]
      invariant forall k :: n <= k < dst.Length ==> dst[k] == old(dst[k])
      invariant field[n..] == Field(src[start + n..], first, Room(size) - n)
    {
      if start + n == |src| || src[start + n] == first {
        break;
      }
      FieldGoesOn(src, start + n, first, Room(size) - n, field, n);
      dst[n] := src[start + n];
      n, left := n + 1, left - 1;
    }
    FieldStops(src[start + n..], first, Room(size) - n);
    assert n == |field|;
    dst[n] := 0;
  }

  lemma SuffixIsText(s: seq<byte>, start: nat)
    requires IsText(s) && start <= |s|
    ensures IsText(s[start..])
  {
  }

  lemma NothingToUnescape()
    ensures IsText([]) && Unescape([]) == []
  {
  }

  method GetPara(src: seq<byte>, dst: array<byte>, size: int, para: seq<byte>, first: byte, second: byte)
    requires IsText(src) && IsText(para) && first != 0 && second != 0
    requires dst.Length >= 1 && size <= dst.Length
    requires ValueStart(src, para, first, second) <= |src|
    modifies dst
    ensures HoldsText(dst[..], ParaText(src, para, first, second, size))
    ensures forall k :: Room(size) < k < dst.Length ==> dst[k] == old(dst[k])
  {
    hide Unescape, Find, Field, IsText;
    dst[0] := 0;
    var start := -1;
    if para + [second] <= src {
      start := |para| + 1;
    } else {
      var key := Search(first, para, second);
      var p := Find(src, if |key| < KEY_BUFFER then key else key[..KEY_BUFFER - 1]);
      if p >= 0 {
        start := p + |key|;
      }
    }
    assert start == ValueStart(src, para, first, second);
    ghost var raw := [];
    if start >= 0 {
      CopyField(src, start, dst, size, first);
      raw := Field(src[start..], first, Room(size));
      SuffixIsText(src, start);
      FieldIsText(src[start..], first, Room(size));
    }
    NothingToUnescape();
    GetUnescaped(dst, raw, dst, size);
  }

  // ---------- records of escaped values ----------

  datatype Pair = Pair(key: seq<byte>, value: seq<byte>)

  /** Keys without the separators of a record. */
  predicate IsKey(key: seq<byte>, sep: byte) {
    IsText(key) && sep !in key && EQUALS !in key
  }

  /** Pairs with such keys; the values are arbitrary. */
  predicate Keyed(pairs: seq<Pair>, sep: byte) {
    sep != EQUALS && forall i :: 0 <= i < |pairs| ==> IsKey(pairs[i].key, sep)
  }

  function Printed(pair: Pair): seq<byte> {
    pair.key + [EQUALS] + EscapeText(pair.value)
  }

  /** key=value fields, each preceded by the separator. */
  function Tail(pairs: seq<Pair>, sep: byte): seq<byte> {
    if pairs == [] then [] else [sep] + Printed(pairs[0]) + Tail(pairs[1..], sep)
  }

  /** key=value fields joined by the separator. */
  function Record(pairs: seq<Pair>, sep: byte): seq<byte> {
    if pairs == [] then [] else Printed(pairs[0]) + Tail(pairs[1..], sep)
  }

  /** The index of the first pair with the key, or the number of pairs. */
  function IndexOf(pairs: seq<Pair>, key: seq<byte>): (i: nat)
    ensures i <= |pairs|
    ensures i < |pairs| ==> pairs[i].key == key
    ensures forall j :: 0 <= j < i ==> pairs[j].key != key
  {
    if pairs == [] || pairs[0].key == key then 0 else 1 + IndexOf(pairs[1..], key)
  }

  /** Text in which no '=' stands behind a separator, so that no field starts inside it. */
  predicate StartsNoField(body: seq<byte>, sep: byte) {
    forall i, j :: 0 <= i < j < |body| && body[i] == sep ==> body[j] != EQUALS
  }

  lemma PrefixAt(x: seq<byte>, s: seq<byte>, j: nat)
    requires j < |x|
    ensures x <= s ==> j < |s| && s[j] == x[j]
  {
  }

  lemma SearchAt(key: seq<byte>, sep: byte, j: nat)
    requires 1 <= j <= |key| + 1
    ensures var search := Search(sep, key, EQUALS);
      |search| == |key| + 2 && search[0] == sep && search[j] == if j == |key| + 1 then EQUALS else key[j - 1]
  {
  }

  lemma BodyAt(body: seq<byte>, rest: seq<byte>, j: nat)
    ensures j < |body| ==> (body + rest)[j] == body[j]
    ensures j == |body| && rest != [] ==> (body + rest)[j] == rest[0]
    ensures |body + rest| == |body| + |rest|
  {
  }

  /** A search for separator, key and '=' cannot match inside such text, nor across the separator behind it. */
  lemma NoMatchInside(body: seq<byte>, rest: seq<byte>, key: seq<byte>, sep: byte)
    requires body != [] && StartsNoField(body, sep) && (rest == [] || rest[0] == sep)
    requires IsKey(key, sep) && sep != EQUALS
    ensures !(Search(sep, key, EQUALS) <= body + rest)
  {
    hide IsText, Search;
    var s, search := body + rest, Search(sep, key, EQUALS);
    var j := if |body| <= |key| + 1 then |body| else |key| + 1;
    SearchAt(key, sep, j);
    BodyAt(body, rest, 0);
    BodyAt(body, rest, j);
    PrefixAt(search, s, 0);
    PrefixAt(search, s, j);
  }

  lemma FindUnfolds(s: seq<byte>, key: seq<byte>)
    requires s != []
    ensures key <= s ==> Find(s, key) == 0
    ensures !(key <= s) ==> Find(s, key) == if Find(s[1..], key) < 0 then -1 else Find(s[1..], key) + 1
  {
  }

  /** Such text is skipped by the search. */
  lemma {:induction false} FindSkips(body: seq<byte>, rest: seq<byte>, key: seq<byte>, sep: byte)
    requires StartsNoField(body, sep) && (rest == [] || rest[0] == sep)
    requires IsKey(key, sep) && sep != EQUALS
    ensures var search := Search(sep, key, EQUALS);
      var p := Find(rest, search);
      Find(body + rest, search) == if p < 0 then -1 else |body| + p
    decreases body
  {
    hide Search, Find, IsKey;
    if body == [] {
      assert body + rest == rest;
    } else {
      NoMatchInside(body, rest, key, sep);
      FindUnfolds(body + rest, Search(sep, key, EQUALS));
      assert (body + rest)[1..] == body[1..] + rest;
      FindSkips(body[1..], rest, key, sep);
    }
  }

  lemma PrefixHead(x: seq<byte>, s: seq<byte>)
    ensures x != [] && x <= s ==> s != [] && x[0] == s[0]
  {
  }

  lemma PrefixOfCons(c: byte, a: seq<byte>, b: seq<byte>)
    ensures [c] + a <= [c] + b <==> a <= b
  {
    if [c] + a <= [c] + b {
      assert ([c] + a)[1..] == a && ([c] + b)[1..] == b;
      assert ([c] + a)[1..] <= ([c] + b)[1..];
    }
  }

  /** A key followed by '=' starts a field exactly when it is the key of the field. */
  lemma {:induction false} KeyStartsField(a: seq<byte>, b: seq<byte>, rest: seq<byte>, sep: byte)
    requires IsKey(a, sep) && IsKey(b, sep)
    ensures a + [EQUALS] <= b + [EQUALS] + rest <==> a == b
    decreases a
  {
    var x, s := a + [EQUALS], b + [EQUALS] + rest;
    assert x[0] == if a == [] then EQUALS else a[0];
    assert s[0] == if b == [] then EQUALS else b[0];
    PrefixHead(x, s);
    if a == [] && b == [] {
      assert s[..1] == x;
    } else if a != [] && b != [] && a[0] == b[0] {
      KeyStartsField(a[1..], b[1..], rest, sep);
      assert x == [a[0]] + (a[1..] + [EQUALS]);
      assert s == [a[0]] + (b[1..] + [EQUALS] + rest);
      PrefixOfCons(a[0], a[1..] + [EQUALS], b[1..] + [EQUALS] + rest);
      assert a == [a[0]] + a[1..] && b == [a[0]] + b[1..];
    }
  }

  lemma ConcatSuffix(a: seq<byte>, b: seq<byte>, n: nat)
    requires n <= |b|
    ensures (a + b)[|a| + n..] == b[n..]
  {
  }

  lemma PrintedAt(pair: Pair, i: nat)
    requires i < |Printed(pair)|
    ensures |Printed(pair)| == |pair.key| + 1 + |EscapeText(pair.value)|
    ensures var n := |pair.key|;
      Printed(pair)[i]
      == if i < n then pair.key[i] else if i == n then EQUALS else EscapeText(pair.value)[i - n - 1]
  {
    hide EscapeText;
  }

  /** A printed pair starts no field: its key is free of the separator, and its escaped value of '='. */
  lemma PrintedStartsNoField(pair: Pair, sep: byte)
    requires IsKey(pair.key, sep) && sep != EQUALS
    ensures StartsNoField(Printed(pair), sep)
  {
    hide EscapeText, IsText, Printed;
    EscapeHasNoSeparators(pair.value);
    forall i, j | 0 <= i < j < |Printed(pair)| && Printed(pair)[i] == sep
      ensures Printed(pair)[j] != EQUALS
    {
      PrintedAt(pair, i);
      PrintedAt(pair, j);
    }
  }

  /** The search at p found pair i: behind the key stand its value and the pairs that follow; no pair gives -1. */
  predicate Located(s: seq<byte>, p: int, pairs: seq<Pair>, i: nat, key: seq<byte>, sep: byte) {
    if i >= |pairs| then p == -1
    else
      && 0 <= p && p + |key| + 2 <= |s|
      && s[p + |key| + 2..] == EscapeText(pairs[i].value) + Tail(pairs[i + 1..], sep)
  }

  lemma LocatedLater(s: seq<byte>, p: int, pairs: seq<Pair>, i: nat, key: seq<byte>, sep: byte)
    requires pairs != [] && Located(s, p, pairs[1..], i, key, sep)
    ensures Located(s, p, pairs, i + 1, key, sep)
  {
    hide EscapeText, Tail;
    if i + 1 < |pairs| { assert pairs[1..][i + 1..] == pairs[i + 2..]; }
  }

  /** A body and a separator before the field move what was located. */
  lemma LocatedBehind(body: seq<byte>, s: seq<byte>, p: int, pairs: seq<Pair>, i: nat, key: seq<byte>, sep: byte)
    requires Located(s, p, pairs, i, key, sep)
    ensures Located(body + ([sep] + s), if p < 0 then -1 else |body| + 1 + p, pairs, i, key, sep)
  {
    hide EscapeText, Tail;
    if i < |pairs| {
      assert body + ([sep] + s) == (body + [sep]) + s;
      ConcatSuffix(body + [sep], s, p + |key| + 2);
    }
  }

  lemma NothingLocated(s: seq<byte>, key: seq<byte>, sep: byte)
    ensures Located(s, -1, [], 0, key, sep)
  {
  }

  lemma TailStart(pairs: seq<Pair>, sep: byte)
    requires pairs != []
    ensures Tail(pairs, sep)
         == ([sep] + pairs[0].key + [EQUALS]) + (EscapeText(pairs[0].value) + Tail(pairs[1..], sep))
  {
    hide EscapeText;
  }

  lemma FirstLocated(body: seq<byte>, pairs: seq<Pair>, key: seq<byte>, sep: byte)
    requires pairs != [] && pairs[0].key == key
    ensures Located(body + Tail(pairs, sep), |body|, pairs, 0, key, sep)
  {
    var front, rest := [sep] + key + [EQUALS], EscapeText(pairs[0].value) + Tail(pairs[1..], sep);
    TailStart(pairs, sep);
    hide EscapeText, Tail;
    var s := body + Tail(pairs, sep);
    assert s == (body + front) + rest;
    ConcatSuffix(body + front, rest, 0);
    assert |body + front| == |body| + |key| + 2;
    assert rest[0..] == rest;
  }

  lemma PairsUnfold(pairs: seq<Pair>, key: seq<byte>, sep: byte)
    ensures pairs == [] ==> Tail(pairs, sep) == []
    ensures pairs != [] ==>
      && Tail(pairs, sep) == [sep] + Printed(pairs[0]) + Tail(pairs[1..], sep)
      && Record(pairs, sep) == Printed(pairs[0]) + Tail(pairs[1..], sep)
      && IndexOf(pairs, key) == (if pairs[0].key == key then 0 else 1 + IndexOf(pairs[1..], key))
  {
    hide Printed;
  }

  lemma PairsSplit(pairs: seq<Pair>, sep: byte)
    requires Keyed(pairs, sep)
    ensures sep != EQUALS
    ensures pairs != [] ==> IsKey(pairs[0].key, sep) && Keyed(pairs[1..], sep)
  {
  }

  lemma SearchShape(key: seq<byte>, sep: byte)
    ensures var search := Search(sep, key, EQUALS);
      search != [] && search[0] == sep && |search| == |key| + 2
  {
  }

  lemma SearchAtField(pair: Pair, rest: seq<byte>, key: seq<byte>, sep: byte)
    requires IsKey(pair.key, sep) && IsKey(key, sep)
    ensures Search(sep, key, EQUALS) <= [sep] + (Printed(pair) + rest) <==> pair.key == key
  {
    hide EscapeText, IsKey;
    assert Printed(pair) + rest == pair.key + [EQUALS] + (EscapeText(pair.value) + rest);
    KeyStartsField(key, pair.key, EscapeText(pair.value) + rest, sep);
    assert Search(sep, key, EQUALS) == [sep] + (key + [EQUALS]);
    PrefixOfCons(sep, key + [EQUALS], Printed(pair) + rest);
  }

  /** A search that starts at a separator succeeds there, or goes on behind it. */
  lemma FirstFieldLookup(pair: Pair, tail: seq<byte>, key: seq<byte>, sep: byte)
    requires IsKey(pair.key, sep) && IsKey(key, sep)
    ensures var s, search := Printed(pair) + tail, Search(sep, key, EQUALS);
      Find([sep] + s, search) ==
        if pair.key == key then 0 else if Find(s, search) < 0 then -1 else Find(s, search) + 1
  {
    hide EscapeText, Find, IsKey, Printed;
    var s := Printed(pair) + tail;
    SearchAtField(pair, tail, key, sep);
    FindUnfolds([sep] + s, Search(sep, key, EQUALS));
    assert ([sep] + s)[1..] == s;
  }

  lemma FindInNothing(key: seq<byte>)
    requires key != []
    ensures Find([], key) == -1
  {
  }

  lemma TailStarts(pairs: seq<Pair>, sep: byte)
    ensures Tail(pairs, sep) == [] || Tail(pairs, sep)[0] == sep
  {
  }

  /** Searching a tail of fields for a separator, the key and '=' stops at the first pair with the key. */
  lemma {:induction false} TailLookup(body: seq<byte>, pairs: seq<Pair>, key: seq<byte>, sep: byte)
    requires StartsNoField(body, sep) && Keyed(pairs, sep) && IsKey(key, sep)
    ensures var s := body + Tail(pairs, sep);
      Located(s, Find(s, Search(sep, key, EQUALS)), pairs, IndexOf(pairs, key), key, sep)
    decreases pairs
  {
    hide EscapeText, Find, IsKey, Printed, Search, Keyed, StartsNoField, Tail, IndexOf, Located;
    var search := Search(sep, key, EQUALS);
    SearchShape(key, sep);
    PairsSplit(pairs, sep);
    TailStarts(pairs, sep);
    FindSkips(body, Tail(pairs, sep), key, sep);
    PairsUnfold(pairs, key, sep);
    if pairs == [] {
      FindInNothing(search);
      NothingLocated(body + Tail(pairs, sep), key, sep);
    } else {
      var s := Printed(pairs[0]) + Tail(pairs[1..], sep);
      assert Tail(pairs, sep) == [sep] + s;
      FirstFieldLookup(pairs[0], Tail(pairs[1..], sep), key, sep);
      if pairs[0].key == key {
        FirstLocated(body, pairs, key, sep);
      } else {
        PrintedStartsNoField(pairs[0], sep);
        TailLookup(Printed(pairs[0]), pairs[1..], key, sep);
        var p, i := Find(s, search), IndexOf(pairs[1..], key);
        LocatedLater(s, p, pairs, i, key, sep);
        LocatedBehind(body, s, p, pairs, i + 1, key, sep);
      }
    }
  }

  lemma ValueStartCases(src: seq<byte>, key: seq<byte>, sep: byte)
    requires |key| <= 97
    ensures var start, p := ValueStart(src, key, sep, EQUALS), Find(src, Search(sep, key, EQUALS));
      if key + [EQUALS] <= src then start == |key| + 1
      else start == (if p < 0 then -1 else p + |key| + 2)
  {
    hide Find;
  }

  lemma FieldAtStart(pair: Pair, tail: seq<byte>, key: seq<byte>, sep: byte)
    requires IsKey(pair.key, sep) && IsKey(key, sep)
    ensures key + [EQUALS] <= Printed(pair) + tail <==> pair.key == key
    ensures |pair.key| + 1 <= |Printed(pair) + tail|
    ensures (Printed(pair) + tail)[|pair.key| + 1..] == EscapeText(pair.value) + tail
  {
    hide EscapeText, IsKey;
    assert Printed(pair) + tail == pair.key + [EQUALS] + (EscapeText(pair.value) + tail);
    KeyStartsField(key, pair.key, EscapeText(pair.value) + tail, sep);
  }

  lemma FirstLookup(pairs: seq<Pair>, key: seq<byte>, sep: byte)
    requires Keyed(pairs, sep) && IsKey(key, sep) && |key| <= 97
    requires pairs != [] && pairs[0].key == key
    ensures var src := Record(pairs, sep);
      var start := ValueStart(src, key, sep, EQUALS);
      IndexOf(pairs, key) == 0
      && 0 <= start <= |src| && src[start..] == EscapeText(pairs[0].value) + Tail(pairs[1..], sep)
  {
    hide EscapeText, Find, IsKey, Tail, Printed, Keyed, StartsNoField, IndexOf, Record, Search, ValueStart;
    PairsUnfold(pairs, key, sep);
    PairsSplit(pairs, sep);
    FieldAtStart(pairs[0], Tail(pairs[1..], sep), key, sep);
    ValueStartCases(Record(pairs, sep), key, sep);
  }

  /** A first pair with another key leaves the lookup to the search. */
  lemma FirstMisses(pairs: seq<Pair>, key: seq<byte>, sep: byte)
    requires Keyed(pairs, sep) && IsKey(key, sep) && |key| <= 97
    requires pairs != [] && pairs[0].key != key
    ensures var src := Record(pairs, sep);
      var p := Find(src, Search(sep, key, EQUALS));
      ValueStart(src, key, sep, EQUALS) == if p < 0 then -1 else p + |key| + 2
  {
    hide EscapeText, Find, IsKey, Tail, Printed, Keyed, IndexOf, Record, Search, ValueStart;
    PairsUnfold(pairs, key, sep);
    PairsSplit(pairs, sep);
    FieldAtStart(pairs[0], Tail(pairs[1..], sep), key, sep);
    ValueStartCases(Record(pairs, sep), key, sep);
  }

  /** In the record of a first pair with another key the search stops at the first pair with the key. */
  lemma LaterLocated(pairs: seq<Pair>, key: seq<byte>, sep: byte)
    requires Keyed(pairs, sep) && IsKey(key, sep)
    requires pairs != [] && pairs[0].key != key
    ensures var src := Record(pairs, sep);
      Located(src, Find(src, Search(sep, key, EQUALS)), pairs, IndexOf(pairs, key), key, sep)
  {
    hide EscapeText, Find, IsKey, Tail, Printed, Keyed, StartsNoField, IndexOf, Record, Search, Located;
    PairsUnfold(pairs, key, sep);
    PairsSplit(pairs, sep);
    PrintedStartsNoField(pairs[0], sep);
    TailLookup(Printed(pairs[0]), pairs[1..], key, sep);
    var p := Find(Record(pairs, sep), Search(sep, key, EQUALS));
    LocatedLater(Record(pairs, sep), p, pairs, IndexOf(pairs[1..], key), key, sep);
  }

  lemma LaterLookup(pairs: seq<Pair>, key: seq<byte>, sep: byte)
    requires Keyed(pairs, sep) && IsKey(key, sep) && |key| <= 97
    requires pairs != [] && pairs[0].key != key
    ensures var src, i := Record(pairs, sep), IndexOf(pairs, key);
      var start := ValueStart(src, key, sep, EQUALS);
      if i == |pairs| then start == -1
      else 0 <= start <= |src| && src[start..] == EscapeText(pairs[i].value) + Tail(pairs[i + 1..], sep)
  {
    hide EscapeText, Find, IsKey, Tail, Printed, Keyed, StartsNoField, IndexOf, Record, Search, ValueStart;
    FirstMisses(pairs, key, sep);
    LaterLocated(pairs, key, sep);
  }

  lemma NoRecord(sep: byte)
    ensures Record([], sep) == []
  {
  }

  /** In a printed record the value found is that of the first pair with the key, or the lookup fails. */
  lemma RecordLookup(pairs: seq<Pair>, key: seq<byte>, sep: byte)
    requires Keyed(pairs, sep) && IsKey(key, sep) && |key| <= 97
    ensures var src, i := Record(pairs, sep), IndexOf(pairs, key);
      var start := ValueStart(src, key, sep, EQUALS);
      if i == |pairs| then start == -1
      else 0 <= start <= |src| && src[start..] == EscapeText(pairs[i].value) + Tail(pairs[i + 1..], sep)
  {
    hide EscapeText, Find, IsKey, Tail, Printed, Keyed, StartsNoField, IndexOf, Record, Search, ValueStart;
    PairsUnfold(pairs, key, sep);
    if pairs == [] {
      NoRecord(sep);
      SearchShape(key, sep);
      FindInNothing(Search(sep, key, EQUALS));
      ValueStartCases([], key, sep);
    } else if pairs[0].key == key {
      FirstLookup(pairs, key, sep);
    } else {
      LaterLookup(pairs, key, sep);
    }
  }

  function Take(s: seq<byte>, n: nat): seq<byte> {
    if |s| <= n then s else s[..n]
  }

  /** What stands behind the next separator does not belong to a field. */
  lemma {:induction false} FieldEnds(e: seq<byte>, rest: seq<byte>, first: byte, room: nat)
    requires rest == [] || rest[0] == first
    ensures Field(e + rest, first, room) == Field(e, first, room)
    decreases e
  {
    if e == [] {
      assert e + rest == rest;
    } else if room > 0 {
      assert (e + rest)[1..] == e[1..] + rest;
      FieldEnds(e[1..], rest, first, room - 1);
    }
  }

  /** A field free of separators is copied as far as room allows. */
  lemma {:induction false} FieldOfClean(e: seq<byte>, first: byte, room: nat)
    requires first !in e
    ensures Field(e, first, room) == Take(e, room)
    decreases e
  {
    if e != [] && room > 0 {
      FieldOfClean(e[1..], first, room - 1);
    }
  }

  /**
    Looking a key up in a printed record gives the value of the first pair with the key as far as its escape
    fits the buffer and is free of the separator, and nothing when no pair has the key.
   */
  lemma LookupOfRecord(pairs: seq<Pair>, key: seq<byte>, sep: byte, size: int)
    requires Keyed(pairs, sep) && IsKey(key, sep) && |key| <= 97
    ensures var i := IndexOf(pairs, key);
      var found := ParaText(Record(pairs, sep), key, sep, EQUALS, size);
      && (i == |pairs| ==> found == [])
      && (i < |pairs| ==> found == Unescape(Field(EscapeText(pairs[i].value), sep, Room(size))))
      && (i < |pairs| && sep !in EscapeText(pairs[i].value) ==>
            found == Unescape(Take(EscapeText(pairs[i].value), Room(size))))
  {
    hide EscapeText, Unescape, Field, IsKey, Record, ValueStart, IndexOf, Tail, IsText, Find, Take, Keyed;
    RecordLookup(pairs, key, sep);
    var i := IndexOf(pairs, key);
    if i < |pairs| {
      var e := EscapeText(pairs[i].value);
      TailStarts(pairs[i + 1..], sep);
      FieldEnds(e, Tail(pairs[i + 1..], sep), sep, Room(size));
      if sep !in e { FieldOfClean(e, sep, Room(size)); }
    }
  }

  /** Under '&' every value may be printed: escapes are free of it. */
  lemma LookupUnderAmpersand(pairs: seq<Pair>, key: seq<byte>, size: int)
    requires Keyed(pairs, AMPERSAND) && IsKey(key, AMPERSAND) && |key| <= 97
    ensures var i := IndexOf(pairs, key);
      var found := ParaText(Record(pairs, AMPERSAND), key, AMPERSAND, EQUALS, size);
      if i == |pairs| then found == []
      else |EscapeText(pairs[i].value)| < size ==> found == pairs[i].value
  {
    hide EscapeText, IsKey, ParaText, Record, IndexOf, Unescape, Field, Keyed;
    LookupOfRecord(pairs, key, AMPERSAND, size);
    var i := IndexOf(pairs, key);
    if i < |pairs| {
      EscapeHasNoSeparators(pairs[i].value);
      UnescapeEscape(pairs[i].value);
    }
  }

  // ---------- values that come back whole ----------

  lemma SplitPair(c: byte, n: nat)
    requires n < |Escaped(c)|
    ensures Unescape(Escaped(c)[..n]) == if n == 0 then [] else [BACKSLASH]
  {
  }

  /** Cutting an escape in the middle leaves the values that fit, and a backslash where a pair was split. */
  lemma CutEscape(v: seq<byte>, room: nat)
    requires room < |EscapeText(v)|
    ensures var k := Fitting(v, room);
      && k < |v|
      && Unescape(Take(EscapeText(v), room))
         == v[..k] + (if |EscapeText(v[..k])| < room then [BACKSLASH] else [])
  {
    hide Escaped, EscapeText, Unescape, Fitting;
    var k := Fitting(v, room);
    assert v[..|v|] == v;
    EscapeStep(v, k);
    EscapeConcat(v[..k + 1], v[k + 1..]);
    assert v == v[..k + 1] + v[k + 1..];
    var e := EscapeText(v[..k]);
    var rest := Escaped(v[k])[..room - |e|];
    assert Take(EscapeText(v), room) == e + rest;
    UnescapeEscapeThen(v[..k], rest);
    SplitPair(v[k], room - |e|);
  }

  lemma WholeCut(v: seq<byte>, k: nat, rest: seq<byte>)
    requires k < |v| && |rest| <= 1
    ensures v[..k] + rest == v <==> k == |v| - 1 && rest == [v[k]]
  {
    var w := v[..k] + rest;
    assert |w| == k + |rest|;
    if |rest| == 1 {
      assert w[k] == rest[0];
      assert rest == [v[k]] && k == |v| - 1 ==> w == v;
    }
  }

  lemma EscapedLength(c: byte)
    ensures |Escaped(c)| == if c == BACKSLASH || c == EQUALS || c == AMPERSAND || c == NEWLINE then 2 else 1
  {
  }

  /** The escape fits, or only the second half of a final backslash does not. */
  predicate FitsWhole(v: seq<byte>, room: nat) {
    || |EscapeText(v)| <= room
    || (|EscapeText(v)| == room + 1 && v != [] && v[|v| - 1] == BACKSLASH)
  }

  /** The first characters of an escape stand for the whole value exactly when it fits whole. */
  lemma WholeValueExact(v: seq<byte>, room: nat)
    ensures Unescape(Take(EscapeText(v), room)) == v <==> FitsWhole(v, room)
  {
    hide Escaped, EscapeText, Unescape, Fitting;
    if |EscapeText(v)| <= room {
      UnescapeEscape(v);
    } else {
      CutEscape(v, room);
      var k := Fitting(v, room);
      EscapeStep(v, k);
      assert v[..|v|] == v;
      EscapeGrows(v, k + 1, |v|);
      WholeCut(v, k, if |EscapeText(v[..k])| < room then [BACKSLASH] else []);
      EscapedLength(v[k]);
      if k < |v| - 1 { EscapeStep(v, k + 1); EscapeGrows(v, k + 2, |v|); }
    }
  }

  lemma EndsInBackslashes(v: seq<byte>)
    requires v != [] && v[|v| - 1] == BACKSLASH
    ensures var e := EscapeText(v); |e| >= 2 && e[|e| - 1] == BACKSLASH && e[|e| - 2] == BACKSLASH
  {
    assert EscapeText(v) == EscapeText(v[..|v| - 1]) + [BACKSLASH, BACKSLASH];
  }

  lemma SeparatorBeforeLast(e: seq<byte>, sep: byte)
    requires |e| >= 2 && e[|e| - 1] == e[|e| - 2] && sep in e
    ensures sep in e[..|e| - 1]
  {
    var front := e[..|e| - 1];
    assert e == front + [e[|e| - 1]] && front[|e| - 2] == e[|e| - 1];
  }

  /** The field of an escape that contains the separator never stands for the whole value. */
  lemma CutAtSeparator(v: seq<byte>, sep: byte, room: nat)
    requires sep in EscapeText(v)
    ensures Unescape(Field(EscapeText(v), sep, room)) != v
  {
    hide EscapeText, Unescape, Field;
    var e := EscapeText(v);
    var n := |Field(e, sep, room)|;
    assert Field(e, sep, room) == Take(e, n);
    WholeValueExact(v, n);
    if v != [] && v[|v| - 1] == BACKSLASH {
      EndsInBackslashes(v);
      SeparatorBeforeLast(e, sep);
    }
  }

  /** The field of an escape stands for the whole value exactly when the escape is free of the separator and fits. */
  lemma FieldExact(v: seq<byte>, sep: byte, room: nat)
    ensures Unescape(Field(EscapeText(v), sep, room)) == v <==> sep !in EscapeText(v) && FitsWhole(v, room)
  {
    hide EscapeText, Unescape, Field, FitsWhole, Take;
    if sep in EscapeText(v) {
      CutAtSeparator(v, sep, room);
    } else {
      FieldOfClean(EscapeText(v), sep, room);
      WholeValueExact(v, room);
    }
  }

  /**
    Under any separator but '=', the value of the first pair with the key comes back
    exactly when its escape is free of the separator and fits whole.
   */
  lemma ValueExact(pairs: seq<Pair>, key: seq<byte>, sep: byte, size: int)
    requires Keyed(pairs, sep) && IsKey(key, sep) && |key| <= 97
    ensures var i := IndexOf(pairs, key);
      i < |pairs| ==>
        var v := pairs[i].value;
        ParaText(Record(pairs, sep), key, sep, EQUALS, size) == v
        <==> sep !in EscapeText(v) && FitsWhole(v, Room(size))
  {
    hide EscapeText, Unescape, Field, ParaText, Record, IndexOf, IsKey, Keyed, FitsWhole;
    LookupOfRecord(pairs, key, sep, size);
    var i := IndexOf(pairs, key);
    if i < |pairs| { FieldExact(pairs[i].value, sep, Room(size)); }
  }

  /** For the first pair of a record this needs nothing of the keys, the other pairs or the separator. */
  lemma FirstValueExact(pairs: seq<Pair>, sep: byte, size: int)
    requires pairs != []
    ensures var v := pairs[0].value;
      ParaText(Record(pairs, sep), pairs[0].key, sep, EQUALS, size) == v
      <==> sep !in EscapeText(v) && FitsWhole(v, Room(size))
  {
    hide EscapeText, Unescape, Field, Find, FitsWhole, Take;
    var key, v, tail := pairs[0].key, pairs[0].value, Tail(pairs[1..], sep);
    var src := Record(pairs, sep);
    assert src == key + [EQUALS] + (EscapeText(v) + tail);
    assert src[..|key| + 1] == key + [EQUALS];
    assert src[|key| + 1..] == EscapeText(v) + tail;
    TailStarts(pairs[1..], sep);
    FieldEnds(EscapeText(v), tail, sep, Room(size));
    FieldExact(v, sep, Room(size));
  }

  /** Characters that escaping neither replaces nor writes. */
  predicate IsPlain(c: byte) {
    c != BACKSLASH && c != EQUALS && c != AMPERSAND && c != NEWLINE && c != 97 && c != 98 && c != 110
  }

  lemma {:induction false} EscapeKeepsPlain(v: seq<byte>, c: byte)
    requires IsPlain(c)
    ensures c in EscapeText(v) <==> c in v
  {
    if v != [] { EscapeKeepsPlain(v[..|v| - 1], c); }
  }

  /** Under a separator such as the default '|' a value that fits comes back exactly when it is free of it. */
  lemma PlainValueExact(pairs: seq<Pair>, key: seq<byte>, sep: byte, size: int)
    requires IsPlain(sep) && Keyed(pairs, sep) && IsKey(key, sep) && |key| <= 97
    ensures var i := IndexOf(pairs, key);
      i < |pairs| && |EscapeText(pairs[i].value)| < size ==>
        (ParaText(Record(pairs, sep), key, sep, EQUALS, size) == pairs[i].value <==> sep !in pairs[i].value)
  {
    hide EscapeText, ParaText, Record, IndexOf, IsKey, Keyed, IsPlain;
    ValueExact(pairs, key, sep, size);
    var i := IndexOf(pairs, key);
    if i < |pairs| { EscapeKeepsPlain(pairs[i].value, sep); }
  }

  const BAR: byte := 124

  lemma BarField()
    ensures Field(EscapeText([49, BAR, 50]), BAR, 9) == [49]
  {
    var v := [49, BAR, 50];
    assert v[..2] == [49, BAR] && v[..2][..1] == [49];
    assert EscapeText([49]) == [49] && EscapeText([49, BAR]) == [49, BAR];
    assert EscapeText(v) == v && v[1..] == [BAR, 50];
    assert Field(v[1..], BAR, 8) == [];
  }

  /** A witness: from k=x|h=1|2 the lookup of h under '|' gives 1. */
  lemma BarCutsValue()
    ensures var pairs := [Pair([107], [120]), Pair([104], [49, BAR, 50])];
      ParaText(Record(pairs, BAR), [104], BAR, EQUALS, 10) == [49]
  {
    hide ParaText, Record, EscapeText, Field;
    var pairs := [Pair([107], [120]), Pair([104], [49, BAR, 50])];
    assert IndexOf(pairs[1..], [104]) == 0 && IndexOf(pairs, [104]) == 1;
    LookupOfRecord(pairs, [104], BAR, 10);
    BarField();
    assert Unescape([49]) == [49] + Unescape([]);
  }
}
