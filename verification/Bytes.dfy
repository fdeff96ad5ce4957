/** Eight-bit characters and NUL-terminated text held in buffers. */
module Bytes {
  type byte = bv8

  /** Text that a C string can hold: no terminator inside. */
  predicate IsText(text: seq<byte>) {
    0 !in text
  }

  /** The buffer starts with the text and a terminator. */
  predicate HoldsText(buffer: seq<byte>, text: seq<byte>) {
    |text| < |buffer| && buffer[..|text|] == text && buffer[|text|] == 0
  }

  /** The first NUL of a buffer that holds a text is the terminator of the text. */
  lemma TerminatorIsFirst(buffer: seq<byte>, text: seq<byte>, k: nat)
    requires IsText(text) && HoldsText(buffer, text)
    ensures k < |text| ==> buffer[k] == text[k] != 0
    ensures k == |text| ==> buffer[k] == 0
  {
    assert k < |text| ==> buffer[..|text|][k] == text[k];
  }

  lemma TextByIndex(buffer: seq<byte>, text: seq<byte>)
    requires IsText(text) && HoldsText(buffer, text)
    ensures forall k :: 0 <= k < |text| ==> buffer[k] == text[k] && text[k] != 0
    ensures |text| < |buffer| && buffer[|text|] == 0
  {
    assert buffer[..|text|] == text;
  }

  lemma TextFromIndex(buffer: seq<byte>, text: seq<byte>)
    requires |text| < |buffer| && buffer[|text|] == 0
    requires forall k :: 0 <= k < |text| ==> buffer[k] == text[k]
    ensures HoldsText(buffer, text)
  {
  }

  method StrLen(buffer: array<byte>, ghost text: seq<byte>) returns (n: nat)
    requires IsText(text) && HoldsText(buffer[..], text)
    ensures n == |text|
  {
    n := 0;
    TerminatorIsFirst(buffer[..], text, 0);
    while buffer[n] != 0
      invariant n <= |text|
      invariant n < |text| ==> buffer[..][n] != 0
      invariant n == |text| ==> buffer[..][n] == 0
      decreases |text| - n
    {
      n := n + 1;
      TerminatorIsFirst(buffer[..], text, n);
    }
  }
}
