/** Small pieces the text modules share. */
module Sequences {

  /** A string that functions change through a reference. */
  class Text<T> {
    var units: seq<T>

    constructor (units: seq<T>)
      ensures this.units == units
    {
      this.units := units;
    }
  }

  /** The sequence with the element at i taken out. */
  function Without<T>(s: seq<T>, i: nat): seq<T>
    requires i < |s|
  {
    s[..i] + s[i + 1..]
  }

  function TrimEnd<T(==)>(s: seq<T>, c: T): (r: seq<T>)
    ensures r <= s
    ensures r == [] || r[|r| - 1] != c
  {
    if s != [] && s[|s| - 1] == c then TrimEnd(s[..|s| - 1], c) else s
  }

  function TrimStart<T(==)>(s: seq<T>, c: T): (r: seq<T>)
    ensures |r| <= |s| && r == s[|s| - |r|..]
    ensures r == [] || r[0] != c
  {
    if s != [] && s[0] == c then TrimStart(s[1..], c) else s
  }

  function Trim<T(==)>(s: seq<T>, c: T): seq<T> {
    TrimStart(TrimEnd(s, c), c)
  }

  /** Trimming the end cuts after the last element that differs from c. */
  lemma {:induction false} TrimEndIs<T>(s: seq<T>, c: T, n: nat)
    requires n <= |s| && (n == 0 || s[n - 1] != c)
    requires forall k :: n <= k < |s| ==> s[k] == c
    ensures TrimEnd(s, c) == s[..n]
    decreases s
  {
    if n < |s| {
      TrimEndIs(s[..|s| - 1], c, n);
      assert s[..|s| - 1][..n] == s[..n];
    } else {
      assert s[..n] == s;
    }
  }

  lemma {:induction false} TrimStartIs<T>(s: seq<T>, c: T, k: nat)
    requires k <= |s| && (k == |s| || s[k] != c)
    requires forall m :: 0 <= m < k ==> s[m] == c
    ensures TrimStart(s, c) == s[k..]
    decreases s
  {
    if k > 0 {
      TrimStartIs(s[1..], c, k - 1);
      assert s[1..][k - 1..] == s[k..];
    }
  }
}
