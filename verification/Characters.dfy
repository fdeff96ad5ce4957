/** Where characters of one or several bytes start, counted off from the first byte of a text. */
module Characters {
  import opened Bytes

  datatype Charset = Utf8Words | GbkPairs

  /** UTF-8: any byte that leads nothing counts as a character. */
  function WordSize(first: byte): (n: nat)
    ensures 1 <= n <= 4
  {
    if first & 0x80 == 0 then 1
    else if first & 0xF8 == 0xF0 then 4
    else if first & 0xF0 == 0xE0 then 3
    else if first & 0xE0 == 0xC0 then 2
    else 1
  }

  /** The length of a character by its first byte. */
  function CharSize(charset: Charset, first: byte): (n: nat)
    ensures 1 <= n <= 4
  {
    match charset
    case Utf8Words => WordSize(first)
    case GbkPairs => if first & 0x80 != 0 then 2 else 1
  }

  /** Characters counted off from position i reach position k. */
  ghost predicate Reaches(charset: Charset, s: seq<byte>, i: nat, k: nat)
    decreases k - i
  {
    i == k || (i < k && i < |s| && Reaches(charset, s, i + CharSize(charset, s[i]), k))
  }

  /** Every character that starts before the end lies within the bytes that can be read. */
  ghost predicate WordsReadable(s: seq<byte>, end: int) {
    forall k: nat :: Reaches(Utf8Words, s, 0, k) && k < end ==> k < |s| && k + WordSize(s[k]) <= |s|
  }

  lemma {:induction false} ReachesOn(charset: Charset, s: seq<byte>, i: nat, k: nat)
    requires Reaches(charset, s, i, k) && k < |s|
    ensures Reaches(charset, s, i, k + CharSize(charset, s[k]))
    decreases k - i
  {
    hide CharSize;
    if i < k {
      ReachesOn(charset, s, i + CharSize(charset, s[i]), k);
    }
  }

  lemma ReachedForward(charset: Charset, s: seq<byte>, i: nat, k: nat)
    requires Reaches(charset, s, i, k)
    ensures i <= k
  {
  }

  /** Between two positions that characters reach there is room for the character at the first. */
  lemma {:induction false} ReachedApart(charset: Charset, s: seq<byte>, i: nat, a: nat, b: nat)
    requires Reaches(charset, s, i, a) && Reaches(charset, s, i, b) && a < b
    ensures a < |s| && a + CharSize(charset, s[a]) <= b
    decreases a - i
  {
    hide CharSize;
    if i < a {
      ReachedApart(charset, s, i + CharSize(charset, s[i]), a, b);
    } else {
      ReachedForward(charset, s, i + CharSize(charset, s[i]), b);
    }
  }

  /** The sizes by the ranges of the first byte. */
  lemma SizesByRange(b: byte)
    ensures CharSize(Utf8Words, b)
         == if b < 0xC0 then 1 else if b < 0xE0 then 2 else if b < 0xF0 then 3 else if b < 0xF8 then 4 else 1
    ensures CharSize(GbkPairs, b) == if b < 0x80 then 1 else 2
  {
  }
}
