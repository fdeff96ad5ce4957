/** Texts as lists of fields: splitting at a delimiter, joining, replacing one field, folding spaces. */
module Fields {
  import opened Sequences

  // ---------- the field view ----------

  /** All fields of a text, empty ones included; a text without a delimiter is one field. */
  function FieldsOf(s: string, d: char): (f: seq<string>)
    ensures |f| >= 1
    ensures forall i :: 0 <= i < |f| ==> d !in f[i]
  {
    if s == [] then [[]]
    else
      var f, last := FieldsOf(s[..|s| - 1], d), s[|s| - 1];
      if last == d then f + [[]] else f[|f| - 1 := f[|f| - 1] + [last]]
  }

  function Join(xs: seq<string>, d: char): string {
    if xs == [] then []
    else if |xs| == 1 then xs[0]
    else Join(xs[..|xs| - 1], d) + [d] + xs[|xs| - 1]
  }

  predicate FreeOf(xs: seq<string>, d: char) {
    forall i :: 0 <= i < |xs| ==> d !in xs[i]
  }

  lemma JoinSnoc(xs: seq<string>, x: string, d: char)
    ensures Join(xs + [x], d) == if xs == [] then x else Join(xs, d) + [d] + x
  {
    assert (xs + [x])[..|xs|] == xs;
  }

  lemma FieldsSnoc(s: string, c: char, d: char)
    ensures var f := FieldsOf(s, d);
      FieldsOf(s + [c], d) == f[..|f| - 1] + (if c == d then [f[|f| - 1], []] else [f[|f| - 1] + [c]])
  {
    assert (s + [c])[..|s|] == s;
  }

  lemma FieldsOfNothing(d: char)
    ensures FieldsOf([], d) == [[]]
  {
  }

  lemma JoinSingle(x: string, d: char)
    ensures Join([x], d) == x
  {
  }

  lemma JoinExtended(init: seq<string>, x: string, c: char, d: char)
    ensures Join(init + (if c == d then [x, []] else [x + [c]]), d) == Join(init + [x], d) + [c]
  {
    hide Join;
    JoinSnoc(init, x, d);
    if c == d {
      JoinSnoc(init + [x], [], d);
      assert init + [x, []] == (init + [x]) + [[]];
      assert Join(init + [x], d) + [d] + [] == Join(init + [x], d) + [d];
    } else {
      JoinSnoc(init, x + [c], d);
      assert Join(init, d) + [d] + (x + [c]) == (Join(init, d) + [d] + x) + [c];
    }
  }

  /** Joining the fields of a text gives the text. */
  lemma {:induction false} JoinFields(s: string, d: char)
    ensures Join(FieldsOf(s, d), d) == s
    decreases s
  {
    hide Join, FieldsOf;
    if s == [] {
      FieldsOfNothing(d);
      JoinSingle([], d);
    } else {
      var front, c := s[..|s| - 1], s[|s| - 1];
      assert s == front + [c];
      JoinFields(front, d);
      FieldsSnoc(front, c, d);
      var f := FieldsOf(front, d);
      JoinExtended(f[..|f| - 1], f[|f| - 1], c, d);
      assert f == f[..|f| - 1] + [f[|f| - 1]];
    }
  }

  /** What follows the last delimiter is the last field. */
  lemma {:induction false} FieldsAfterDelimiter(s: string, x: string, d: char)
    requires d !in x
    ensures FieldsOf(s + [d] + x, d) == FieldsOf(s, d) + [x]
    decreases x
  {
    hide FieldsOf;
    var f := FieldsOf(s, d);
    if x == [] {
      assert s + [d] + x == s + [d];
      FieldsSnoc(s, d, d);
      assert f + [x] == f[..|f| - 1] + [f[|f| - 1], []];
    } else {
      var y, c := x[..|x| - 1], x[|x| - 1];
      FieldsAfterDelimiter(s, y, d);
      FieldsSnoc(s + [d] + y, c, d);
      assert s + [d] + x == (s + [d] + y) + [c];
      assert x == y + [c];
    }
  }

  lemma {:induction false} FieldsWithoutDelimiter(x: string, d: char)
    requires d !in x
    ensures FieldsOf(x, d) == [x]
    decreases x
  {
    hide FieldsOf;
    if x == [] {
      FieldsOfNothing(d);
    } else {
      var y, c := x[..|x| - 1], x[|x| - 1];
      FieldsWithoutDelimiter(y, d);
      FieldsSnoc(y, c, d);
      assert x == y + [c];
    }
  }

  /** The fields of joined texts free of the delimiter are these texts. */
  lemma {:induction false} FieldsOfJoin(xs: seq<string>, d: char)
    requires xs != [] && FreeOf(xs, d)
    ensures FieldsOf(Join(xs, d), d) == xs
    decreases xs
  {
    hide FieldsOf;
    if |xs| == 1 {
      FieldsWithoutDelimiter(xs[0], d);
    } else {
      var init, x := xs[..|xs| - 1], xs[|xs| - 1];
      FieldsOfJoin(init, d);
      FieldsAfterDelimiter(Join(init, d), x, d);
      assert xs == init + [x];
    }
  }

  // ---------- Split and JoinWithDelim ----------

  /** What Split answers: the fields, without the last one when it is empty. */
  function SplitOf(s: string, d: char): seq<string> {
    var f := FieldsOf(s, d);
    if f[|f| - 1] == [] then f[..|f| - 1] else f
  }

  /** find_first_of: the first position of d at or after from, or the length of the text. */
  function IndexFrom(s: string, d: char, from: nat): (p: nat)
    requires from <= |s|
    ensures from <= p <= |s| && d !in s[from..p]
    ensures p < |s| ==> s[p] == d
    decreases |s| - from
  {
    if from == |s| || s[from] == d then from
    else
      var p := IndexFrom(s, d, from + 1);
      assert s[from..p] == [s[from]] + s[from + 1..p];
      p
  }

  /** The fields up to a delimiter position, one found after the other. */
  lemma NextField(s: string, d: char, pos: nat, end: nat)
    requires pos <= end <= |s| && d !in s[pos..end]
    ensures pos == 0 ==> FieldsOf(s[..end], d) == [s[..end]]
    ensures pos > 0 && s[pos - 1] == d ==> FieldsOf(s[..end], d) == FieldsOf(s[..pos - 1], d) + [s[pos..end]]
  {
    hide FieldsOf;
    if pos == 0 {
      FieldsWithoutDelimiter(s[..end], d);
    } else if s[pos - 1] == d {
      assert s[..end] == s[..pos - 1] + [d] + s[pos..end];
      FieldsAfterDelimiter(s[..pos - 1], s[pos..end], d);
    }
  }

  method Split(src: string, separator: char) returns (result: seq<string>)
    ensures result == SplitOf(src, separator)
  {
    hide FieldsOf;
    result := [];
    var pos := 0;
    while true
      invariant 0 <= pos <= |src|
      invariant pos == 0 ==> result == []
      invariant pos > 0 ==> src[pos - 1] == separator && result == FieldsOf(src[..pos - 1], separator)
      decreases |src| - pos
    {
      var separatePos := IndexFrom(src, separator, pos);
      NextField(src, separator, pos, separatePos);
      if separatePos == |src| {
        assert src[..|src|] == src;
        var last := src[pos..];
        if last != [] {
          result := result + [last];
        }
        break;
      }
      result := result + [src[pos..separatePos]];
      pos := separatePos + 1;
    }
  }

  lemma JoinNothing(xs: seq<string>, d: char)
    ensures Join(xs[..0], d) == [] && (xs == [] ==> Join(xs, d) == [])
  {
  }

  method JoinWithDelim(srcs: seq<string>, delim: char) returns (dst: string)
    ensures dst == Join(srcs, delim)
  {
    hide Join;
    JoinNothing(srcs, delim);
    if srcs == [] {
      return [];
    }
    dst := [];
    var i := 0;
    while i < |srcs|
      invariant 0 <= i <= |srcs|
      invariant dst == Join(srcs[..i], delim) + (if 0 < i < |srcs| then [delim] else [])
    {
      JoinSnoc(srcs[..i], srcs[i], delim);
      assert srcs[..i + 1] == srcs[..i] + [srcs[i]];
      dst := dst + srcs[i];
      if i != |srcs| - 1 {
        dst := dst + [delim];
      }
      i := i + 1;
    }
    assert srcs[..i] == srcs;
  }

  lemma LastFieldEmpty(s: string, d: char)
    ensures var f := FieldsOf(s, d); f[|f| - 1] == [] <==> s == [] || s[|s| - 1] == d
  {
  }

  /** Joining what Split answers gives the text back but for one delimiter at its end. */
  lemma JoinOfSplit(s: string, d: char)
    ensures Join(SplitOf(s, d), d) == if s != [] && s[|s| - 1] == d then s[..|s| - 1] else s
  {
    JoinFields(s, d);
    LastFieldEmpty(s, d);
    if s != [] && s[|s| - 1] == d {
      JoinFields(s[..|s| - 1], d);
      var f := FieldsOf(s[..|s| - 1], d);
      assert (f + [[]])[..|f|] == f;
    }
  }

  /** Splitting joined texts gives them back exactly when there are none or the last is not empty. */
  lemma SplitOfJoinExact(xs: seq<string>, d: char)
    requires FreeOf(xs, d)
    ensures SplitOf(Join(xs, d), d) == xs <==> xs == [] || xs[|xs| - 1] != []
  {
    if xs != [] { FieldsOfJoin(xs, d); }
  }

  // ---------- ReplaceByDelim ----------

  /** What stands before field j, and what stands behind it. */
  function Before(f: seq<string>, j: nat, d: char): string
    requires j < |f|
  {
    if j == 0 then [] else Join(f[..j], d) + [d]
  }

  function Behind(f: seq<string>, j: nat, d: char): string
    requires j < |f|
    decreases |f| - j
  {
    if j + 1 == |f| then [] else [d] + f[j + 1] + Behind(f, j + 1, d)
  }

  lemma NextAround(f: seq<string>, j: nat, d: char)
    requires j + 1 < |f|
    ensures Before(f, j + 1, d) == Before(f, j, d) + f[j] + [d]
    ensures Behind(f, j, d) == [d] + f[j + 1] + Behind(f, j + 1, d)
  {
    hide Join;
    JoinSnoc(f[..j], f[j], d);
    assert f[..j + 1] == f[..j] + [f[j]];
  }

  lemma LastAround(f: seq<string>, j: nat, d: char)
    requires j + 1 == |f|
    ensures Join(f, d) == Before(f, j, d) + f[j] + Behind(f, j, d)
  {
    hide Join;
    JoinSnoc(f[..j], f[j], d);
    assert f == f[..j] + [f[j]];
  }

  lemma {:induction false} JoinAround(f: seq<string>, j: nat, d: char)
    requires j < |f|
    ensures Join(f, d) == Before(f, j, d) + f[j] + Behind(f, j, d)
    decreases |f| - j
  {
    hide Join, Before, Behind;
    if j + 1 == |f| {
      LastAround(f, j, d);
    } else {
      JoinAround(f, j + 1, d);
      NextAround(f, j, d);
      var front, behind := Before(f, j, d) + f[j], Behind(f, j + 1, d);
      assert front + [d] + f[j + 1] + behind == front + ([d] + f[j + 1] + behind);
    }
  }

  lemma {:induction false} AroundOther(f: seq<string>, i: nat, x: string, j: nat, d: char)
    requires i <= j < |f|
    ensures Behind(f[i := x], j, d) == Behind(f, j, d)
    ensures Before(f[i := x], i, d) == Before(f, i, d)
    decreases |f| - j
  {
    assert f[i := x][..i] == f[..i];
    if j + 1 < |f| { AroundOther(f, i, x, j + 1, d); }
  }

  /** What ReplaceByDelim makes of a text. */
  function Replaced(s: string, d: char, n: nat, x: string): string {
    var f := FieldsOf(s, d);
    if 1 <= n < |f| then Join(f[n - 1 := x], d)
    else
      // only the last character of the text is kept, when the field or the text has one
      var kept := if s == [] || (n == |f| && f[n - 1] == []) then [] else [s[|s| - 1]];
      if n == |f| then Join(f[n - 1 := x + kept], d) else x + kept
  }

  /** Field n is replaced exactly when it is not the last field, or is empty. */
  lemma ReplacedExact(s: string, d: char, n: nat, x: string)
    requires 1 <= n <= |FieldsOf(s, d)|
    ensures var f := FieldsOf(s, d);
      Replaced(s, d, n, x) == Join(f[n - 1 := x], d) <==> n < |f| || f[n - 1] == []
  {
    var f := FieldsOf(s, d);
    if n == |f| {
      LastFieldEmpty(s, d);
      var last := f[..n - 1];
      if f[n - 1] == [] {
        assert x + [] == x;
      } else {
        var y := x + [s[|s| - 1]];
        assert f[n - 1 := x] == last + [x] && f[n - 1 := y] == last + [y];
        JoinSnoc(last, x, d);
        JoinSnoc(last, y, d);
        assert |Join(f[n - 1 := y], d)| == |Join(f[n - 1 := x], d)| + 1;
      }
    }
  }

  /** What happens otherwise: the last character of the text stays, of the last field or of a text without field n. */
  lemma ReplacedElsewhere(s: string, d: char, n: nat, x: string)
    requires s != []
    ensures n == 0 || n > |FieldsOf(s, d)| ==> Replaced(s, d, n, x) == x + [s[|s| - 1]]
    ensures n == |FieldsOf(s, d)| && s[|s| - 1] != d ==>
      Replaced(s, d, n, x) == Join(FieldsOf(s, d)[n - 1 := x + [s[|s| - 1]]], d)
  {
    hide FieldsOf, Join;
    LastFieldEmpty(s, d);
  }

  /** A replaced field leaves all other fields as they were. */
  lemma ReplacedFields(s: string, d: char, n: nat, x: string)
    requires 1 <= n < |FieldsOf(s, d)| && d !in x
    ensures FieldsOf(Replaced(s, d, n, x), d) == FieldsOf(s, d)[n - 1 := x]
  {
    FieldsOfJoin(FieldsOf(s, d)[n - 1 := x], d);
  }

  /** A delimiter ends as many fields as the text before it has. */
  lemma {:induction false} FieldsPrefix(s: string, d: char, p: nat)
    requires p < |s| && s[p] == d
    ensures var g, f := FieldsOf(s[..p], d), FieldsOf(s, d);
      |g| < |f| && f[..|g|] == g
    decreases s
  {
    hide FieldsOf;
    var front, c := s[..|s| - 1], s[|s| - 1];
    assert s == front + [c];
    FieldsSnoc(front, c, d);
    if p == |s| - 1 {
      var f := FieldsOf(front, d);
      assert f[..|f| - 1] + [f[|f| - 1]] == f;
    } else {
      FieldsPrefix(front, d, p);
      assert front[..p] == s[..p];
    }
  }

  /** Field i starts at the position pos. */
  predicate StartsField(s: string, d: char, i: nat, pos: nat) {
    var f := FieldsOf(s, d);
    && i < |f| && pos <= |s|
    && s[..pos] == Before(f, i, d)
    && (if i == 0 then pos == 0 else pos > 0 && s[pos - 1] == d && FieldsOf(s[..pos - 1], d) == f[..i])
  }

  /** From the start of a field the next delimiter, or the end of the text, is its end. */
  lemma FieldEnds(s: string, d: char, i: nat, pos: nat)
    requires StartsField(s, d, i, pos)
    ensures var f, p := FieldsOf(s, d), IndexFrom(s, d, pos);
      && f[i] == s[pos..p] && Behind(f, i, d) == s[p..]
      && (p < |s| ==> StartsField(s, d, i + 1, p + 1))
      && (p == |s| ==> i + 1 == |f|)
  {
    hide FieldsOf, Join;
    var f, p := FieldsOf(s, d), IndexFrom(s, d, pos);
    NextField(s, d, pos, p);
    JoinFields(s, d);
    if p < |s| {
      FieldsPrefix(s, d, p);
      JoinFields(s[..p], d);
      assert f[..i + 1][i] == s[pos..p];
      assert s[..p + 1] == s[..p] + [d];
    } else {
      assert s[..p] == s;
    }
    JoinAround(f, i, d);
    assert s == s[..pos] + s[pos..p] + Behind(f, i, d);
    assert s == s[..pos] + s[pos..p] + s[p..];
  }

  /** std::string::replace with a count that may stand for the rest of the text. */
  function ReplaceRange(s: string, at: nat, count: int, x: string): string
    requires at <= |s|
  {
    if count < 0 || at + count > |s| then s[..at] + x else s[..at] + x + s[at + count..]
  }

  /** Putting another text in the place of field j. */
  lemma JoinReplaced(f: seq<string>, j: nat, x: string, d: char)
    requires j < |f|
    ensures Join(f[j := x], d) == Before(f, j, d) + x + Behind(f, j, d)
  {
    hide Join, Before, Behind;
    JoinAround(f[j := x], j, d);
    AroundOther(f, j, x, j, d);
  }

  lemma FirstFieldStarts(s: string, d: char)
    ensures StartsField(s, d, 0, 0)
  {
    hide FieldsOf;
  }

  lemma StartsFieldMeans(s: string, d: char, i: nat, pos: nat)
    requires StartsField(s, d, i, pos)
    ensures i < |FieldsOf(s, d)| && pos <= |s| && s[..pos] == Before(FieldsOf(s, d), i, d)
  {
    hide FieldsOf, Before;
  }

  lemma ReplacedInside(s: string, d: char, n: nat, x: string)
    ensures 1 <= n < |FieldsOf(s, d)| ==> Replaced(s, d, n, x) == Join(FieldsOf(s, d)[n - 1 := x], d)
  {
    hide FieldsOf, Join;
  }

  /** The search ran out of delimiters in field i, the last one. */
  lemma ReplacedAtEnd(s: string, d: char, n: nat, x: string, i: nat, pos: nat)
    requires StartsField(s, d, i, pos) && IndexFrom(s, d, pos) == |s|
    requires n == 0 || i < n
    ensures n >= 1 && i == n - 1 ==> Replaced(s, d, n, x) == ReplaceRange(s, pos, |s| - 1 - pos, x)
    ensures n == 0 || i < n - 1 ==> Replaced(s, d, n, x) == ReplaceRange(s, 0, |s| - 1, x)
  {
    hide FieldsOf, Join, Before, Behind;
    var f := FieldsOf(s, d);
    FieldEnds(s, d, i, pos);
    assert |f| == i + 1 && f[i] == s[pos..];
    if n >= 1 && i == n - 1 {
      var kept := if s == [] || f[n - 1] == [] then [] else [s[|s| - 1]];
      JoinReplaced(f, n - 1, x + kept, d);
      assert Replaced(s, d, n, x) == s[..pos] + (x + kept) + s[|s|..];
    }
  }

  method ReplaceByDelim(src: Text<char>, delim: char, n: nat, rpDst: string)
    modifies src
    ensures src.units == Replaced(old(src.units), delim, n, rpDst)
  {
    hide FieldsOf, Join, Before, Behind, StartsField, Replaced;
    var s := src.units;
    ghost var f := FieldsOf(s, delim);
    var firstPos := -1;
    var nextPos := |s| - 1;  // the largest size when the text is empty, read as "to the end" below
    var i, pos := 0, 0;
    FirstFieldStarts(s, delim);
    StartsFieldMeans(s, delim, 0, 0);
    while n == 0 || i <= n - 1
      invariant n == 0 || i <= n
      invariant 0 <= pos <= |s| && StartsField(s, delim, i, pos) && i < |f|
      invariant n >= 1 && i == n ==>
        && firstPos >= -1 && 0 <= firstPos + 1 <= nextPos < |s|
        && s[..firstPos + 1] == Before(f, n - 1, delim) && s[nextPos..] == Behind(f, n - 1, delim)
      invariant n == 0 || i < n ==> nextPos == |s| - 1 && firstPos == (if n >= 2 && i == n - 1 then pos - 1 else -1)
      invariant i == 0 ==> pos == 0
      decreases |s| - pos
    {
      FieldEnds(s, delim, i, pos);
      StartsFieldMeans(s, delim, i, pos);
      var p := IndexFrom(s, delim, pos);
      if p == |s| {
        ReplacedAtEnd(s, delim, n, rpDst, i, pos);
        break;
      }
      if i == n - 1 {
        nextPos := p;
      } else if i == n - 2 {
        firstPos := p;
      }
      i, pos := i + 1, p + 1;
      StartsFieldMeans(s, delim, i, pos);
    }
    if n >= 1 && i == n {
      JoinReplaced(f, n - 1, rpDst, delim);
      ReplacedInside(s, delim, n, rpDst);
    }
    src.units := ReplaceRange(s, firstPos + 1, nextPos - firstPos - 1, rpDst);
  }

  // ---------- FoldSpace ----------

  const SPACE := ' '

  /** The non-empty fields. */
  function NonEmpty(f: seq<string>): seq<string> {
    if f == [] then []
    else NonEmpty(f[..|f| - 1]) + (if f[|f| - 1] == [] then [] else [f[|f| - 1]])
  }

  /** The words of a text: what stands between spaces. */
  function Words(s: string): seq<string> {
    NonEmpty(FieldsOf(s, SPACE))
  }

  /** Runs of spaces shortened to one. */
  function Folded(s: string): string {
    if s == [] then []
    else
      var r, c := Folded(s[..|s| - 1]), s[|s| - 1];
      if c == SPACE && r != [] && r[|r| - 1] == SPACE then r else r + [c]
  }

  function SpaceIf(b: bool): string {
    if b then [SPACE] else []
  }

  /** The words with single spaces between them, and a space where spaces lead or trail. */
  function Spaced(s: string): string {
    SpaceIf(s != [] && s[0] == SPACE) + Join(Words(s), SPACE)
    + SpaceIf(Words(s) != [] && s != [] && s[|s| - 1] == SPACE)
  }

  lemma NonEmptySnoc(f: seq<string>, x: string)
    ensures NonEmpty(f + [x]) == NonEmpty(f) + (if x == [] then [] else [x])
  {
    assert (f + [x])[..|f|] == f;
  }

  /** One character more adds to the last word, starts one, or ends one. */
  lemma WordsSnoc(s: string, c: char)
    ensures var w := Words(s);
      Words(s + [c]) ==
        if c == SPACE then w
        else if s == [] || s[|s| - 1] == SPACE then w + [[c]]
        else if w == [] then [[c]] else w[..|w| - 1] + [w[|w| - 1] + [c]]
    ensures s != [] && s[|s| - 1] != SPACE ==> Words(s) != []
  {
    hide FieldsOf, NonEmpty;
    var f := FieldsOf(s, SPACE);
    var init, x := f[..|f| - 1], f[|f| - 1];
    assert f == init + [x];
    LastFieldEmpty(s, SPACE);
    FieldsSnoc(s, c, SPACE);
    NonEmptySnoc(init, x);
    NonEmptySnoc(init, x + [c]);
    NonEmptySnoc(init + [x], []);
    assert init + [x, []] == (init + [x]) + [[]];
    if x == [] {
      assert x + [c] == [c];
    } else {
      var w := NonEmpty(init) + [x];
      assert w[..|w| - 1] == NonEmpty(init);
    }
  }

  lemma {:induction false} FoldedEnd(s: string)
    requires s != []
    ensures Folded(s) != [] && Folded(s)[|Folded(s)| - 1] == s[|s| - 1]
    decreases s
  {
    if |s| > 1 { FoldedEnd(s[..|s| - 1]); }
  }

  lemma FoldedSnoc(s: string, c: char)
    ensures Folded(s + [c]) ==
      if c == SPACE && s != [] && s[|s| - 1] == SPACE then Folded(s) else Folded(s) + [c]
  {
    assert (s + [c])[..|s|] == s;
    if s != [] { FoldedEnd(s); }
  }

  lemma SpacedCases(s: string)
    requires s != []
    ensures var lead, j := SpaceIf(s[0] == SPACE), Join(Words(s), SPACE);
      && (s[|s| - 1] != SPACE ==> Spaced(s) == lead + j)
      && (s[|s| - 1] == SPACE && Words(s) == [] ==> Spaced(s) == lead)
      && (s[|s| - 1] == SPACE && Words(s) != [] ==> Spaced(s) == lead + j + [SPACE])
  {
    hide Words, Join;
    JoinNothing(Words(s), SPACE);
    if Words(s) == [] { assert Join(Words(s), SPACE) == []; }
  }

  lemma SpaceExtends(t: string)
    requires t != [] && Folded(t) == Spaced(t)
    ensures Folded(t + [SPACE]) == Spaced(t + [SPACE])
  {
    hide Words, Join, Folded, Spaced;
    var s := t + [SPACE];
    FoldedSnoc(t, SPACE);
    WordsSnoc(t, SPACE);
    SpacedCases(t);
    SpacedCases(s);
    assert Words(s) == Words(t) && s[0] == t[0];
  }

  lemma Regroup(a: string, b: string, c: string, d: string)
    ensures a + b + c + d == a + (b + c + d)
    ensures a + b + d == a + (b + d)
  {
  }

  lemma LetterStartsWord(t: string, c: char)
    requires t != [] && t[|t| - 1] == SPACE && c != SPACE && Folded(t) == Spaced(t)
    ensures Folded(t + [c]) == Spaced(t + [c])
  {
    hide Words, Join, Folded, Spaced, SpaceIf;
    FoldedSnoc(t, c);
    WordsSnoc(t, c);
    SpacedCases(t);
    SpacedCases(t + [c]);
    assert (t + [c])[0] == t[0];
    var w, lead := Words(t), SpaceIf(t[0] == SPACE);
    JoinSnoc(w, [c], SPACE);
    if w != [] {
      Regroup(lead, Join(w, SPACE), [SPACE], [c]);
    }
  }

  lemma LetterExtendsWord(t: string, c: char)
    requires t != [] && t[|t| - 1] != SPACE && c != SPACE && Folded(t) == Spaced(t)
    ensures Folded(t + [c]) == Spaced(t + [c])
  {
    hide Words, Join, Folded, Spaced, SpaceIf;
    FoldedSnoc(t, c);
    WordsSnoc(t, c);
    SpacedCases(t);
    SpacedCases(t + [c]);
    assert (t + [c])[0] == t[0];
    var w := Words(t);
    assert w == w[..|w| - 1] + [w[|w| - 1]];
    JoinExtended(w[..|w| - 1], w[|w| - 1], c, SPACE);
    Regroup(SpaceIf(t[0] == SPACE), Join(w, SPACE), [], [c]);
  }

  lemma NothingFolded()
    ensures Folded([]) == [] && Words([]) == [] && Join([], SPACE) == []
  {
    var none: seq<string> := [];
    FieldsOfNothing(SPACE);
    NonEmptySnoc(none, []);
    assert none + [[]] == [[]];
  }

  lemma NothingSpaced()
    ensures Spaced([]) == []
  {
    NothingFolded();
  }

  lemma ShortFolded(s: string)
    requires |s| <= 1
    ensures Folded(s) == Spaced(s)
  {
    hide Words, Join, Folded, Spaced;
    NothingFolded();
    NothingSpaced();
    if s != [] {
      assert s == [] + [s[0]];
      FoldedSnoc([], s[0]);
      WordsSnoc([], s[0]);
      SpacedCases(s);
      JoinSingle(s, SPACE);
      assert [] + s == s && [s[0]] == s;
      if s[0] != SPACE { assert Words(s) == Words([]) + [s] == [s]; }
    }
  }

  lemma {:induction false} FoldedIsWords(s: string)
    ensures Folded(s) == Spaced(s)
    decreases s
  {
    hide Spaced, Folded;
    if |s| <= 1 {
      ShortFolded(s);
    } else {
      var t, c := s[..|s| - 1], s[|s| - 1];
      assert s == t + [c];
      FoldedIsWords(t);
      if c == SPACE {
        SpaceExtends(t);
      } else if t[|t| - 1] == SPACE {
        LetterStartsWord(t, c);
      } else {
        LetterExtendsWord(t, c);
      }
    }
  }

  predicate AreWords(w: seq<string>) {
    forall i :: 0 <= i < |w| ==> w[i] != [] && SPACE !in w[i]
  }

  lemma {:induction false} JoinedWordsEnds(w: seq<string>)
    requires AreWords(w) && w != []
    ensures var j := Join(w, SPACE); j != [] && j[0] != SPACE && j[|j| - 1] != SPACE
    decreases w
  {
    if |w| > 1 { JoinedWordsEnds(w[..|w| - 1]); }
  }

  lemma StripStart(lead: bool, rest: string)
    requires rest == [] || rest[0] != SPACE
    ensures TrimStart(SpaceIf(lead) + rest, SPACE) == rest
  {
    hide TrimStart;
    TrimStartIs(SpaceIf(lead) + rest, SPACE, |SpaceIf(lead)|);
  }

  lemma StripEnd(text: string, trail: bool)
    requires text == [] || text[|text| - 1] != SPACE
    ensures TrimEnd(text + SpaceIf(trail), SPACE) == text
  {
    hide TrimEnd;
    TrimEndIs(text + SpaceIf(trail), SPACE, |text|);
  }

  lemma StripWords(w: seq<string>, lead: bool, trail: bool)
    requires AreWords(w) && (w == [] ==> !trail)
    ensures TrimEnd(TrimStart(SpaceIf(lead) + Join(w, SPACE) + SpaceIf(trail), SPACE), SPACE) == Join(w, SPACE)
  {
    hide Join, TrimEnd, TrimStart, AreWords;
    var j := Join(w, SPACE);
    if w == [] { JoinNothing(w, SPACE); } else { JoinedWordsEnds(w); }
    assert SpaceIf(lead) + j + SpaceIf(trail) == SpaceIf(lead) + (j + SpaceIf(trail));
    StripStart(lead, j + SpaceIf(trail));
    StripEnd(j, trail);
  }

  lemma {:induction false} NonEmptyAreWords(f: seq<string>)
    requires FreeOf(f, SPACE)
    ensures AreWords(NonEmpty(f))
    decreases f
  {
    if f != [] { NonEmptyAreWords(f[..|f| - 1]); }
  }

  lemma WordsAreWords(s: string)
    ensures AreWords(Words(s))
  {
    NonEmptyAreWords(FieldsOf(s, SPACE));
  }

  lemma StripFolded(s: string)
    ensures TrimEnd(TrimStart(Folded(s), SPACE), SPACE) == Join(Words(s), SPACE)
  {
    hide Words, Join, Folded, TrimEnd, TrimStart;
    FoldedIsWords(s);
    WordsAreWords(s);
    StripWords(Words(s), s != [] && s[0] == SPACE, Words(s) != [] && s != [] && s[|s| - 1] == SPACE);
  }

  method FoldSpace(src: string) returns (r: string)
    ensures r == Join(Words(src), SPACE)
  {
    hide Words, Join;
    var result := "";
    var lastItem := '\0';
    var i := 0;
    while i < |src|
      invariant 0 <= i <= |src| && result == Folded(src[..i])
      invariant lastItem == if result == [] then '\0' else result[|result| - 1]
    {
      assert src[..i + 1][..i] == src[..i];
      if !(lastItem == ' ' && src[i] == ' ') {
        result := result + [src[i]];
        lastItem := src[i];
      }
      i := i + 1;
    }
    assert src[..i] == src;
    StripFolded(src);
    r := TrimEnd(TrimStart(result, SPACE), SPACE);
  }

  lemma {:induction false} NonEmptyOfWords(w: seq<string>)
    requires AreWords(w)
    ensures NonEmpty(w) == w
    decreases w
  {
    if w != [] { NonEmptyOfWords(w[..|w| - 1]); }
  }

  /** Folding keeps the words, so folding again changes nothing. */
  lemma FoldKeepsWords(s: string)
    ensures Words(Join(Words(s), SPACE)) == Words(s)
  {
    var w := Words(s);
    WordsAreWords(s);
    if w == [] {
      NothingFolded();
    } else {
      hide Join, FieldsOf;
      FieldsOfJoin(w, SPACE);
      NonEmptyOfWords(w);
    }
  }

  /** The characters of a text other than spaces. */
  function Solid(s: string): string {
    if s == [] then []
    else Solid(s[..|s| - 1]) + if s[|s| - 1] == ' ' then [] else [s[|s| - 1]]
  }

  predicate HasNoSpacePair(s: string) {
    forall k :: 0 <= k < |s| - 1 ==> !(s[k] == ' ' && s[k + 1] == ' ')
  }

  lemma {:induction false} SolidOfConcat(a: string, b: string)
    ensures Solid(a + b) == Solid(a) + Solid(b)
    decreases b
  {
    if b == [] {
      assert a + b == a;
    } else {
      assert (a + b)[..|a + b| - 1] == a + b[..|b| - 1];
      SolidOfConcat(a, b[..|b| - 1]);
    }
  }

  lemma {:induction false} FoldedShape(s: string)
    ensures Solid(Folded(s)) == Solid(s) && HasNoSpacePair(Folded(s))
  {
    if s != [] {
      var r, c := Folded(s[..|s| - 1]), s[|s| - 1];
      FoldedShape(s[..|s| - 1]);
      assert (r + [c])[..|r|] == r;
    }
  }

  lemma SolidBehindSpace(s: string)
    ensures Solid([' '] + s) == Solid(s)
  {
    SolidOfConcat([' '], s);
    assert [' '][..0] == [] && Solid([' ']) == [];
  }

  lemma {:induction false} SolidOfTrimStart(s: string)
    ensures Solid(TrimStart(s, ' ')) == Solid(s)
    decreases s
  {
    hide Solid;
    if s != [] && s[0] == ' ' {
      SolidOfTrimStart(s[1..]);
      SolidBehindSpace(s[1..]);
      assert s == [' '] + s[1..];
    }
  }

  lemma {:induction false} SolidOfTrimEnd(s: string)
    ensures Solid(TrimEnd(s, ' ')) == Solid(s)
    decreases s
  {
    if s != [] && s[|s| - 1] == ' ' { SolidOfTrimEnd(s[..|s| - 1]); }
  }

  /** Folding keeps every character but spaces, leaves none of these at the ends, and never two side by side. */
  lemma FoldShape(s: string)
    ensures var r := Join(Words(s), ' ');
      && Solid(r) == Solid(s) && HasNoSpacePair(r)
      && (r != [] ==> r[0] != ' ' && r[|r| - 1] != ' ')
  {
    hide Words, Join, Folded, Solid, TrimStart, TrimEnd;
    StripFolded(s);
    FoldedShape(s);
    var f := Folded(s);
    var t := TrimStart(f, ' ');
    SolidOfTrimStart(f);
    SolidOfTrimEnd(t);
    var r := TrimEnd(t, ' ');
    var at := |f| - |t|;
    forall k | 0 <= k < |r|
      ensures r[k] == f[at + k]
    {
      assert r[k] == t[k] == f[at..][k];
    }
  }
}
