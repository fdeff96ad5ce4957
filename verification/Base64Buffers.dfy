/** The Base64 encoder and decoder as they run: over buffers of limited size. */
module Base64Buffers {
  import opened Bytes
  import opened Base64

  // ---------- the encoder ----------

  /** A buffer of len bytes takes the whole encoding of n bytes. */
  predicate FitsFully(n: nat, len: int) {
    var k := n / 3 * 4;
    if n == 0 then true
    else if n % 3 == 0 then k + 6 <= len
    else if n % 3 == 1 then k + 8 <= len
    else k + 9 <= len
  }

  /** The encoder stops before the third byte of a group and yet appends padding. */
  predicate PadsTooEarly(n: nat, len: int) {
    n % 3 != 0 && len % 4 == 1 && len >= 9 && n > len / 4 * 3 - 3
  }

  /** The number of characters of the encoding that a truncating call keeps. */
  function Kept(n: nat, len: int): (k: nat)
    ensures k <= EncodedLength(n)
  {
    var all := n / 3 * 4 + n % 3;
    if len < 6 then 0
    else
      var room := (len - 6) / 4 * 4 + (if len % 4 == 2 then 1 else 2);
      if room <= all then room else all
  }

  /** What the encoder leaves in its buffer. */
  function EncoderOutput(s: seq<byte>, len: int): seq<byte> {
    if FitsFully(|s|, len) then Encode(s)
    else if PadsTooEarly(|s|, len) then
      Encode(s[..len / 4 * 3 - 4]) + (if |s| % 3 == 1 then [PAD] else [])
    else Encode(s)[..Kept(|s|, len)]
  }

  /** The sextet bits of byte i - 1 that wait for the next character. */
  function Pending(s: seq<byte>, i: nat): byte
    requires i <= |s|
  {
    if i % 3 == 1 then (s[i - 1] << 4) & 0x3F
    else if i % 3 == 2 then (s[i - 1] << 2) & 0x3F
    else 0
  }

  function CharsAt(i: nat): nat {
    i / 3 * 4 + i % 3
  }

  predicate Blocked(i: nat, len: int) {
    CharsAt(i) + (if i % 3 == 2 then 6 else 4) >= len - 1
  }

  /** The streaming encoder's expression for character k of the group b0 b1 b2. */
  function StreamBits(b0: byte, b1: byte, b2: byte, k: nat): byte
    requires k < 4
  {
    if k == 0 then b0 >> 2
    else if k == 1 then ((b0 << 4) & 0x3F) | (b1 >> 4)
    else if k == 2 then ((b1 << 2) & 0x3F) | (b2 >> 6)
    else b2 & 0x3F
  }

  lemma StreamBitsAreSextets(b0: byte, b1: byte, b2: byte, k: nat)
    requires k < 4
    ensures StreamBits(b0, b1, b2, k) == Sextet(Octets(b0, b1, b2), k)
  {
  }

  lemma CharacterInGroup(s: seq<byte>, g: nat, k: nat)
    requires k < 4
    ensures EncodedChar(s, 4 * g + k)
         == if k >= 2 && 3 * g + k - 1 >= |s| then PAD else Base2Chr(Sextet(Group(s, g), k))
  {
    hide Base2Chr, Sextet, Group;
    assert (4 * g + k) / 4 == g && (4 * g + k) % 4 == k;
  }

  lemma PendingBits(s: seq<byte>, i: nat)
    requires i <= |s|
    ensures i % 3 == 1 ==> Pending(s, i) == (ByteOrZero(s, i - 1) << 4) & 0x3F
    ensures i % 3 == 2 ==> Pending(s, i) == (ByteOrZero(s, i - 1) << 2) & 0x3F
  {
  }

  lemma StreamGroup(s: seq<byte>, g: nat, k: nat)
    requires k < 4 && (k >= 2 ==> 3 * g + k - 1 < |s|)
    ensures Base2Chr(StreamBits(ByteOrZero(s, 3 * g), ByteOrZero(s, 3 * g + 1), ByteOrZero(s, 3 * g + 2), k))
         == EncodedChar(s, 4 * g + k)
  {
    hide Base2Chr, EncodedChar, Sextet, ByteOrZero, StreamBits, Octets;
    CharacterInGroup(s, g, k);
    StreamBitsAreSextets(ByteOrZero(s, 3 * g), ByteOrZero(s, 3 * g + 1), ByteOrZero(s, 3 * g + 2), k);
  }

  /** The character the stream emits for byte i is the one the reference puts there. */
  lemma StreamMatchesReference(s: seq<byte>, i: nat)
    requires i < |s|
    ensures i % 3 == 0 ==> Base2Chr(s[i] >> 2) == EncodedChar(s, CharsAt(i))
    ensures i % 3 == 1 ==> Base2Chr(Pending(s, i) | (s[i] >> 4)) == EncodedChar(s, CharsAt(i))
    ensures i % 3 == 2 ==>
      && Base2Chr(Pending(s, i) | (s[i] >> 6)) == EncodedChar(s, CharsAt(i))
      && Base2Chr(s[i] & 0x3F) == EncodedChar(s, CharsAt(i) + 1)
  {
    hide Base2Chr, EncodedChar, Pending;
    PendingBits(s, i);
    var g := i / 3;
    StreamGroup(s, g, i % 3);
    if i % 3 == 2 { StreamGroup(s, g, 3); }
  }

  lemma OrWithNothing(t: byte)
    ensures t | ((0 as byte) >> 4) == t && t | ((0 as byte) >> 6) == t
  {
  }

  /** At the end of the input the pending bits and padding complete the reference encoding. */
  lemma TailMatchesReference(s: seq<byte>)
    requires |s| % 3 != 0
    ensures var p := CharsAt(|s|);
      && EncodedLength(|s|) == p + (if |s| % 3 == 1 then 3 else 2)
      && Base2Chr(Pending(s, |s|)) == EncodedChar(s, p)
      && EncodedChar(s, p + 1) == PAD
      && (|s| % 3 == 1 ==> EncodedChar(s, p + 2) == PAD)
  {
    hide Base2Chr, EncodedChar, Pending;
    var g, k := |s| / 3, |s| % 3;
    CharacterInGroup(s, g, k + 1);
    CharacterInGroup(s, g, 3);
    PendingBits(s, |s|);
    StreamGroup(s, g, k);
    OrWithNothing(Pending(s, |s|));
  }

  /** Characters finished for the first i bytes do not depend on the bytes after them. */
  lemma FinishedCharacters(s: seq<byte>, i: nat, p: nat)
    requires i <= |s| && p < CharsAt(i)
    ensures EncodedChar(s, p) == EncodedChar(s[..i], p)
  {
    hide Base2Chr, EncodedChar;
    var j := p / 4 * 3 + (if p % 4 == 3 then 2 else p % 4);
    assert j < i && CharsAt(j) == (if p % 4 == 3 then p - 1 else p);
    StreamMatchesReference(s, j);
    StreamMatchesReference(s[..i], j);
  }

  /** The text in the buffer when the loop stops before byte i. */
  function TextAtStop(s: seq<byte>, i: nat, len: int): seq<byte>
    requires i <= |s| && CharsAt(i) <= EncodedLength(|s|)
  {
    Encode(s)[..CharsAt(i)]
    + (if |s| % 3 != 0 && CharsAt(i) + 5 < len - 1 then
         [Base2Chr(Pending(s, i)), PAD] + (if |s| % 3 == 1 then [PAD] else [])
       else [])
  }

  lemma EncodedInFull(s: seq<byte>)
    ensures CharsAt(|s|) <= EncodedLength(|s|)
    ensures Encode(s) == Encode(s)[..CharsAt(|s|)]
      + (if |s| % 3 == 0 then [] else [Base2Chr(Pending(s, |s|)), PAD] + (if |s| % 3 == 1 then [PAD] else []))
  {
    hide Base2Chr, EncodedChar, Pending;
    if |s| % 3 != 0 { TailMatchesReference(s); }
  }

  lemma EarlyPadding(s: seq<byte>, i: nat)
    requires i % 3 == 2 && i < |s|
    requires CharsAt(i) <= EncodedLength(|s|)
    ensures Encode(s)[..CharsAt(i)] + [Base2Chr(Pending(s, i)), PAD] == Encode(s[..i])
  {
    hide Base2Chr, EncodedChar;
    EncodedInFull(s[..i]);
    assert Pending(s, i) == Pending(s[..i], i);
    forall p | 0 <= p < CharsAt(i)
      ensures Encode(s)[p] == Encode(s[..i])[p]
    {
      FinishedCharacters(s, i, p);
    }
    assert Encode(s)[..CharsAt(i)] == Encode(s[..i])[..CharsAt(i)];
  }

  lemma CharsStep(i: nat, n: nat)
    requires i < n
    ensures CharsAt(i + 1) == CharsAt(i) + (if i % 3 == 2 then 2 else 1) <= EncodedLength(n)
  {
  }

  lemma RoomInGroup(g: nat, len: int)
    requires 4 * g + 6 <= len <= 4 * g + 9
    ensures (len - 6) / 4 == g
    ensures len % 4 == (len - 4 * g - 4) % 4
    ensures len / 4 == (if len < 4 * g + 8 then g + 1 else g + 2)
  {
  }

  lemma StopAtEnd(n: nat, len: int)
    requires n > 0 ==> !Blocked(n - 1, len)
    ensures FitsFully(n, len) <==> n % 3 == 0 || CharsAt(n) + 5 < len - 1
    ensures !PadsTooEarly(n, len)
    ensures !FitsFully(n, len) ==> Kept(n, len) == CharsAt(n)
  {
    var m, q := n / 3, n % 3;
    assert n == 3 * m + q && CharsAt(n) == 4 * m + q;
    if q == 0 {
      assert n > 0 ==> CharsAt(n - 1) == 4 * m - 2;
    } else {
      assert CharsAt(n - 1) == 4 * m + q - 1 && 4 * m + q + 5 <= len;
      if len < 4 * m + q + 7 { RoomInGroup(m, len); }
    }
  }

  lemma StopInGroup(n: nat, g: nat, r: nat, len: int)
    requires r < 3 && 3 * g + r < n
    requires 4 * g + r + (if r == 2 then 6 else 4) >= len - 1
    requires r > 0 || g > 0 ==> 4 * g + (if r == 2 then 1 else 0) + 4 < len - 1
    ensures !FitsFully(n, len)
    ensures PadsTooEarly(n, len) <==> n % 3 != 0 && 4 * g + r + 5 < len - 1
    ensures PadsTooEarly(n, len) ==> 3 * g + r == len / 4 * 3 - 4 && r == 2
    ensures !PadsTooEarly(n, len) ==> Kept(n, len) == 4 * g + r
  {
    assert n / 3 >= g && (n / 3 == g ==> n % 3 > r);
    if r == 0 {
      assert g == 0 && len <= 5;
    } else {
      RoomInGroup(g, len);
    }
  }

  lemma StopInside(n: nat, i: nat, len: int)
    requires i < n && Blocked(i, len)
    requires i > 0 ==> !Blocked(i - 1, len)
    ensures !FitsFully(n, len)
    ensures PadsTooEarly(n, len) <==> n % 3 != 0 && CharsAt(i) + 5 < len - 1
    ensures PadsTooEarly(n, len) ==> i == len / 4 * 3 - 4 && i % 3 == 2
    ensures !PadsTooEarly(n, len) ==> Kept(n, len) == CharsAt(i)
  {
    var g, r := i / 3, i % 3;
    assert i == 3 * g + r && CharsAt(i) == 4 * g + r;
    StopInGroup(n, g, r, len);
  }

  lemma StopGivesOutput(s: seq<byte>, i: nat, len: int)
    requires i <= |s| && CharsAt(i) <= EncodedLength(|s|)
    requires i > 0 ==> !Blocked(i - 1, len)
    requires i < |s| ==> Blocked(i, len)
    ensures TextAtStop(s, i, len) == EncoderOutput(s, len)
  {
    hide Base2Chr, EncodedChar, Encode, Pending, Blocked, CharsAt, FitsFully, PadsTooEarly, Kept;
    if i == |s| {
      StopAtEnd(|s|, len);
      EncodedInFull(s);
    } else {
      StopInside(|s|, i, len);
      if PadsTooEarly(|s|, len) { EarlyPadding(s, i); }
    }
  }

  lemma StopStart()
    ensures CharsAt(0) == 0
  {
  }

  lemma BlockedMeans(i: nat, len: int)
    ensures Blocked(i, len) <==> CharsAt(i) + (if i % 3 == 2 then 6 else 4) >= len - 1
  {
  }

  lemma EncodedPrefix(s: seq<byte>, pos: nat)
    requires pos <= EncodedLength(|s|)
    ensures |Encode(s)| == EncodedLength(|s|)
    ensures forall p :: 0 <= p < pos ==> Encode(s)[p] == EncodedChar(s, p)
  {
    hide EncodedChar, EncodedLength;
  }

  lemma PendingStep(s: seq<byte>, i: nat)
    requires 0 < i <= |s|
    ensures i % 3 == 1 ==> Pending(s, i) == (s[i - 1] << 4) & 0x3F
    ensures i % 3 == 2 ==> Pending(s, i) == (s[i - 1] << 2) & 0x3F
  {
  }

  /** The encoder's loop: characters go out while room remains, two to six bits staying pending. */
  method EncodeStream(out: array<byte>, len: int, str: seq<byte>) returns (pos: nat, t: byte, ghost i: nat)
    requires 1 <= out.Length && len <= out.Length
    modifies out
    ensures i <= |str| && pos == CharsAt(i) <= EncodedLength(|str|) && pos < out.Length
    ensures i > 0 ==> pos < len && !Blocked(i - 1, len)
    ensures i < |str| ==> Blocked(i, len)
    ensures i % 3 != 0 ==> t == Pending(str, i)
    ensures out[..pos] == Encode(str)[..pos]
    ensures forall k :: pos <= k < out.Length ==> out[k] == old(out[k])
  {
    hide EncodedChar, Base2Chr, Pending, EncoderOutput, CharsAt, Blocked, Encode, EncodedLength;
    StopStart();
    var c: byte := 0;
    pos, t, i := 0, 0, 0;
    var k := 0;
    while k < |str|
      invariant 0 <= i == k <= |str| && pos == CharsAt(i) <= EncodedLength(|str|)
      invariant i > 0 ==> pos < len && !Blocked(i - 1, len)
      invariant i % 3 != 0 ==> t == Pending(str, i)
      invariant forall p :: 0 <= p < pos ==> out[p] == EncodedChar(str, p)
      invariant forall p :: pos <= p < out.Length ==> out[p] == old(out[p])
    {
      c := str[k];
      StreamMatchesReference(str, i);
      BlockedMeans(i, len);
      CharsStep(i, |str|);
      if k % 3 == 0 {
        if pos + 4 >= len - 1 {
          break;
        }
        out[pos] := Base2Chr(c >> 2);
        pos := pos + 1;
        t := (c << 4) & 0x3F;
      } else if k % 3 == 1 {
        if pos + 4 >= len - 1 {
          break;
        }
        out[pos] := Base2Chr(t | (c >> 4));
        pos := pos + 1;
        t := (c << 2) & 0x3F;
      } else {
        if pos + 6 >= len - 1 {
          break;
        }
        out[pos] := Base2Chr(t | (c >> 6));
        out[pos + 1] := Base2Chr(c & 0x3F);
        pos := pos + 2;
      }
      i, k := i + 1, k + 1;
      PendingStep(str, i);
    }
    EncodedPrefix(str, pos);
  }

  /** Padding is only ever appended when bits are pending. */
  lemma TailPending(s: seq<byte>, i: nat, len: int)
    requires i <= |s| && (i < |s| ==> Blocked(i, len))
    requires |s| % 3 != 0 && CharsAt(i) + 5 < len - 1
    ensures i % 3 != 0
  {
  }

  method Base64Encode(out: array<byte>, len: int, str: seq<byte>)
    requires 1 <= out.Length && len <= out.Length
    modifies out
    ensures HoldsText(out[..], EncoderOutput(str, len))
    ensures out[|EncoderOutput(str, len)| + 1..] == old(out[|EncoderOutput(str, len)| + 1..])
  {
    hide EncodedChar, Base2Chr, Pending, EncoderOutput, CharsAt, Blocked, Encode, EncodedLength;
    ghost var before := out[..];
    var pos, t, stop := EncodeStream(out, len, str);
    StopGivesOutput(str, stop, len);
    EncodedPrefix(str, pos);
    if |str| % 3 != 0 && pos + 5 < len - 1 {
      TailPending(str, stop, len);
      out[pos] := Base2Chr(t);
      pos := pos + 1;
      out[pos] := PAD;
      pos := pos + 1;
      if |str| % 3 == 1 {
        out[pos] := PAD;
        pos := pos + 1;
      }
    }
    out[pos] := 0;
    ghost var text := TextAtStop(str, stop, len);
    assert |text| == pos && out[..pos] == text;
    assert forall k :: pos < k < out.Length ==> out[k] == before[k];
  }

  lemma EncodedSizes(n: nat, len: int)
    ensures FitsFully(n, len) && len >= 1 ==> EncodedLength(n) < len
    ensures len >= 1 ==> Kept(n, len) < len
    ensures PadsTooEarly(n, len) ==>
      && !FitsFully(n, len)
      && 0 <= len / 4 * 3 - 4 < n && (len / 4 * 3 - 4) % 3 == 2
      && EncodedLength(len / 4 * 3 - 4) == len / 4 * 4 - 4 < EncodedLength(n)
  {
    var q := len / 4;
    assert PadsTooEarly(n, len) ==> EncodedLength(3 * q - 4) == 4 * q - 4;
  }

  lemma EarlyShape(s: seq<byte>, len: int) returns (q: nat)
    requires PadsTooEarly(|s|, len)
    ensures q == len / 4 >= 2 && 3 * q - 4 < |s| && !FitsFully(|s|, len)
    ensures EncoderOutput(s, len) == Encode(s[..3 * q - 4]) + (if |s| % 3 == 1 then [PAD] else [])
  {
    hide EncodedChar, FitsFully, Encode, Kept;
    EncodedSizes(|s|, len);
    q := len / 4;
  }

  lemma PaddedEnd(s: seq<byte>, g: nat)
    requires |s| == 3 * g + 2
    ensures |Encode(s)| == 4 * g + 4 && Encode(s)[4 * g + 3] == PAD
  {
    hide Encode, EncodedChar;
    LastCharacters(s);
  }

  lemma EncodedCharacter(s: seq<byte>, g: nat)
    requires 3 * g + 2 < |s|
    ensures 4 * g + 3 < |Encode(s)| && Encode(s)[4 * g + 3] != PAD
  {
    hide EncodedChar;
    CharacterInverse(s, 4 * g + 3);
  }

  /** Early padding puts '=' where the encoding has a character of the alphabet. */
  lemma EarlyPaddingShows(s: seq<byte>, len: int)
    requires PadsTooEarly(|s|, len)
    ensures var p := len / 4 * 4 - 5;
      && 0 <= p < |EncoderOutput(s, len)| && p < |Encode(s)|
      && EncoderOutput(s, len)[p] == PAD != Encode(s)[p]
  {
    hide EncodedChar, PadsTooEarly, FitsFully, Encode, Kept, EncoderOutput;
    var q := EarlyShape(s, len);
    PaddedEnd(s[..3 * q - 4], q - 2);
    EncodedCharacter(s, q - 2);
  }

  lemma WholeGroupsOfRoom(len: int, m: nat)
    requires 6 <= len < 4 * m + 6
    ensures (len - 6) / 4 * 4 + 2 < 4 * m
  {
  }

  lemma TruncatedIsShorter(n: nat, len: int)
    ensures !FitsFully(n, len) ==> Kept(n, len) < EncodedLength(n)
  {
    hide EncodedLength;
    EncodedGroups(n);
    var m := n / 3;
    if 6 <= len < 4 * m + 6 { WholeGroupsOfRoom(len, m); }
  }

  lemma FitsByLength(n: nat, len: int)
    ensures FitsFully(n, len)
       <==> n == 0 || len >= EncodedLength(n) + if n % 3 == 0 then 6 else if n % 3 == 1 then 4 else 5
  {
    hide EncodedLength;
    EncodedGroups(n);
  }

  lemma CompleteWhenFitting(s: seq<byte>, len: int)
    ensures EncoderOutput(s, len) == Encode(s) <==> FitsFully(|s|, len)
  {
    hide EncodedChar, Encode, PadsTooEarly, Kept, FitsFully, EncodedLength;
    TruncatedIsShorter(|s|, len);
    EncodedSizes(|s|, len);
    if PadsTooEarly(|s|, len) { EarlyPaddingShows(s, len); }
  }

  /** The buffer holds the whole encoding exactly when it fits, 4 * ceil(n / 3) + 6 bytes always being enough. */
  lemma EncoderCompleteExact(s: seq<byte>, len: int)
    ensures EncoderOutput(s, len) == Encode(s)
       <==> s == [] || len >= |Encode(s)| + if |s| % 3 == 0 then 6 else if |s| % 3 == 1 then 4 else 5
  {
    hide EncodedChar, Encode, PadsTooEarly, Kept, FitsFully, EncodedLength, EncoderOutput;
    FitsByLength(|s|, len);
    CompleteWhenFitting(s, len);
  }

  /** Whatever the capacity, the text and its terminator stay inside the buffer. */
  lemma EncoderOutputFits(s: seq<byte>, len: int)
    ensures len >= 1 ==> |EncoderOutput(s, len)| < len
  {
    hide EncodedChar;
    EncodedSizes(|s|, len);
  }

  lemma PrefixUnlessEarly(s: seq<byte>, len: int)
    requires !PadsTooEarly(|s|, len)
    ensures EncoderOutput(s, len) <= Encode(s)
  {
    hide EncodedChar, Encode, FitsFully;
  }

  /** A call never leaves anything but a prefix of the encoding, unless it pads too early. */
  lemma EncoderPrefixExact(s: seq<byte>, len: int)
    ensures EncoderOutput(s, len) <= Encode(s)
       <==> !(|s| % 3 != 0 && len % 4 == 1 && len >= 9 && |s| > len / 4 * 3 - 3)
  {
    hide EncodedChar, Encode, FitsFully, EncoderOutput;
    if PadsTooEarly(|s|, len) { EarlyPaddingShows(s, len); } else { PrefixUnlessEarly(s, len); }
  }

  /** A word lies in front of one more padding character. */
  lemma WordBeforePad(e: seq<byte>, g: nat)
    requires 4 * g + 3 < |e|
    ensures Word(e + [PAD], g) == Word(e, g)
  {
    hide Join, Chr2Base;
  }

  /** One more padding character costs the decoding its last byte. */
  lemma OneMorePad(e: seq<byte>)
    requires |e| >= 4 && |e| % 4 == 0 && e[|e| - 1] == PAD && e[|e| - 2] != PAD
    ensures |Decode(e)| > 0 && Decode(e + [PAD]) == Decode(e)[..|Decode(e)| - 1]
  {
    hide Octet, Word;
    var t := e + [PAD];
    assert t[|t| - 2] == PAD && |t| / 4 == |e| / 4;
    forall m | 0 <= m < |Decode(t)|
      ensures Decode(t)[m] == Decode(e)[m]
    {
      WordBeforePad(e, m / 3);
    }
  }

  /** What a call that pads too early leaves decodes to a shorter prefix of the input. */
  lemma EarlyPaddingDecodes(s: seq<byte>, len: int)
    requires PadsTooEarly(|s|, len)
    ensures 0 <= len / 4 * 3 - 5 < |s| - 1
    ensures Decode(EncoderOutput(s, len)) == s[..len / 4 * 3 - if |s| % 3 == 2 then 4 else 5]
  {
    hide EncodedChar, Encode, Decode, FitsFully, EncoderOutput;
    var q := EarlyShape(s, len);
    EncodedSizes(|s|, len);
    var front := s[..3 * q - 4];
    DecodeEncode(front);
    LastCharacters(front);
    if |s| % 3 == 1 {
      OneMorePad(Encode(front));
      assert front[..|front| - 1] == s[..3 * q - 5];
    } else {
      assert Encode(front) + [] == Encode(front);
    }
  }

  // ---------- the filter ----------

  function Filtered(t: seq<byte>): (r: seq<byte>)
    ensures |r| <= |t|
  {
    if t == [] then []
    else Filtered(t[..|t| - 1]) + (if IsLegal(t[|t| - 1]) then [t[|t| - 1]] else [])
  }

  /** The text after filtering: legal characters move to the front, and the old tail stays behind them. */
  function AfterFilter(t: seq<byte>): (r: seq<byte>)
    ensures |r| == |t|
  {
    Filtered(t) + t[|Filtered(t)|..]
  }

  /** The characters of a text that are in the table, '%' or '=', in their order. */
  ghost function Selected(t: seq<byte>): seq<byte> {
    if t == [] then []
    else
      var c := t[|t| - 1];
      Selected(t[..|t| - 1]) + if InTable(c) || c == 37 || c == 61 then [c] else []
  }

  lemma {:induction false} FilterSelects(t: seq<byte>)
    ensures Filtered(t) == Selected(t)
  {
    hide IsLegal, InTable;
    if t != [] {
      FilterSelects(t[..|t| - 1]);
      LegalExact(t[|t| - 1]);
    }
  }

  lemma FilteredStep(text: seq<byte>, k: nat)
    requires k < |text|
    ensures Filtered(text[..k + 1]) == Filtered(text[..k]) + (if IsLegal(text[k]) then [text[k]] else [])
  {
    hide IsLegal;
    assert text[..k + 1][..k] == text[..k];
  }

  lemma FilteredLineBreak()
    ensures Filtered([13, 10]) == []
  {
    FilteredStep([13, 10], 0);
    FilteredStep([13, 10], 1);
    assert [13, 10][..0] == [] && [13, 10][..2] == [13, 10];
  }

  lemma {:induction false} FilteredOfConcat(a: seq<byte>, b: seq<byte>)
    ensures Filtered(a + b) == Filtered(a) + Filtered(b)
    decreases b
  {
    hide IsLegal;
    if b == [] {
      assert a + b == a;
    } else {
      var last := |b| - 1;
      assert (a + b)[..|a + b| - 1] == a + b[..last];
      FilteredOfConcat(a, b[..last]);
    }
  }

  /** A witness: a line break is filtered out, and is not read as a character. */
  lemma LineBreakIsDropped(a: seq<byte>, b: seq<byte>)
    ensures Filtered(a + [13, 10] + b) == Filtered(a) + Filtered(b)
  {
    hide IsLegal, Filtered;
    FilteredOfConcat(a + [13, 10], b);
    FilteredOfConcat(a, [13, 10]);
    FilteredLineBreak();
    assert Filtered(a) + [] == Filtered(a);
  }

  lemma {:induction false} FilteredIsText(text: seq<byte>)
    requires IsText(text)
    ensures IsText(Filtered(text))
    ensures forall c :: c in Filtered(text) ==> IsLegal(c)
  {
    hide IsLegal;
    if text != [] { FilteredIsText(text[..|text| - 1]); }
  }

  /** Overwriting the front of a text with its filtered form leaves a text of the same length. */
  lemma FilteredHolds(before: seq<byte>, after: seq<byte>, text: seq<byte>, n: nat)
    requires IsText(text) && HoldsText(before, text)
    requires |after| == |before| && n == |Filtered(text)|
    requires after[..n] == Filtered(text)
    requires forall k :: n <= k < |after| ==> after[k] == before[k]
    ensures HoldsText(after, AfterFilter(text)) && IsText(AfterFilter(text))
    ensures after[|text|..] == before[|text|..]
  {
    hide IsLegal, Filtered;
    FilteredIsText(text);
    assert before[..|text|] == text;
    forall k | 0 <= k < |text|
      ensures after[k] == AfterFilter(text)[k]
    {
      assert k < n ==> after[k] == after[..n][k];
      assert k >= n ==> after[k] == before[..|text|][k];
    }
  }

  method Base64Filter(str: array?<byte>, ghost text: seq<byte>)
    requires str != null ==> IsText(text) && HoldsText(str[..], text)
    modifies str
    ensures str != null ==> HoldsText(str[..], AfterFilter(text)) && IsText(AfterFilter(text))
    ensures str != null ==> str[|text|..] == old(str[|text|..])
    ensures str != null ==> |Selected(text)| <= |text| && str[..|Selected(text)|] == Selected(text)
  {
    FilterSelects(text);
    if str == null {
      return;
    }
    hide IsLegal, Selected;
    var src, dst := 0, 0;
    ghost var before := str[..];
    TerminatorIsFirst(before, text, 0);
    while str[src] != 0
      invariant dst <= src <= |text|
      invariant str[src] == before[src]
      invariant src < |text| ==> before[src] == text[src] != 0
      invariant str[..dst] == Filtered(text[..src])
      invariant forall k :: dst <= k < str.Length ==> str[k] == before[k]
      decreases |text| - src
    {
      var c := str[src];
      FilteredStep(text, src);
      if IsLegal(c) {
        str[dst] := c;
        dst := dst + 1;
      }
      src := src + 1;
      TerminatorIsFirst(before, text, src);
    }
    assert text[..src] == text;
    FilteredHolds(before, str[..], text, dst);
  }

  lemma {:induction false} FilteredLength(t: seq<byte>)
    ensures if forall c :: c in t ==> IsLegal(c) then Filtered(t) == t else |Filtered(t)| < |t|
  {
    hide IsLegal;
    if t != [] {
      var front := t[..|t| - 1];
      assert t == front + [t[|t| - 1]];
      FilteredLength(front);
    }
  }

  /** Filtering leaves a text alone, and yields its legal characters, exactly when all of them are legal. */
  lemma FilterExact(t: seq<byte>)
    ensures (forall c :: c in t ==> IsLegal(c)) ==> AfterFilter(t) == t
    ensures AfterFilter(t) == Filtered(t) <==> (forall c :: c in t ==> IsLegal(c))
  {
    hide IsLegal;
    FilteredLength(t);
    if |Filtered(t)| == |t| { assert AfterFilter(t) == Filtered(t); }
  }

  lemma EncodedCharIsLegal(s: seq<byte>, p: nat)
    ensures IsLegal(EncodedChar(s, p)) && EncodedChar(s, p) != 0
  {
    hide Base2Chr, Sextet, Group;
    SextetBelow64(Group(s, p / 4), p % 4);
    AlphabetInverse(Sextet(Group(s, p / 4), p % 4));
  }

  /** An encoding passes the filter unchanged. */
  lemma EncodingPassesFilter(s: seq<byte>)
    ensures AfterFilter(Encode(s)) == Encode(s)
    ensures IsText(Encode(s))
  {
    hide AfterFilter;
    forall p | 0 <= p < |Encode(s)|
      ensures IsLegal(Encode(s)[p]) && Encode(s)[p] != 0
    {
      EncodedCharIsLegal(s, p);
    }
    FilterExact(Encode(s));
  }

  // ---------- the decoder ----------

  /** How many bytes a decoder with room for that many bytes writes for a text of len characters. */
  function DecodedLength(len: nat, pad: nat, room: int): (n: nat)
    requires pad <= 2
    ensures n <= if room < 0 then 0 else room
    ensures n <= if len < 4 then 0 else len / 4 * 3 - pad
    ensures n == len / 4 * 3 - pad <==> (if len < 4 then pad == 0 else len / 4 * 3 - pad <= room)
  {
    if len < 4 || room < 0 then 0
    else
      var k := if room / 3 < len / 4 - 1 then room / 3 else len / 4 - 1;
      if 3 * k + 3 - pad <= room then 3 * k + 3 - pad else 3 * k
  }

  /** What does not fit whole is cut between groups, or behind a group shortened by the padding, near the room's end. */
  lemma CutNearRoom(len: nat, pad: nat, room: int)
    requires pad <= 2 && len >= 4 && 0 <= room < len / 4 * 3 - pad
    ensures var n := DecodedLength(len, pad, room);
      room - 2 <= n <= room && (n % 3 == 0 || (n + pad) % 3 == 0)
  {
  }

  /** The decoder's expression for byte k of the group with sextets c0 to c3. */
  function OctetBits(c0: byte, c1: byte, c2: byte, c3: byte, k: nat): byte
    requires k < 3
  {
    if k == 0 then (c0 << 2) | ((c1 & 0x30) >> 4)
    else if k == 1 then ((c1 & 0x0F) << 4) | ((c2 & 0x3C) >> 2)
    else ((c2 & 0x03) << 6) | (c3 & 0x3F)
  }

  lemma OctetBitsAreOctets(c0: byte, c1: byte, c2: byte, c3: byte, k: nat)
    requires c0 < 64 && c1 < 64 && c2 < 64 && c3 < 64 && k < 3
    ensures OctetBits(c0, c1, c2, c3, k) == Octet(Join(c0, c1, c2, c3), k)
  {
  }

  /** What the decoder computes for byte k of group g is the reference byte, padding sextets read as zero or not. */
  lemma GroupDecodes(t: seq<byte>, g: nat, k: nat, c2: byte, c3: byte)
    requires 4 * g + 3 < |t| && k < 3
    requires k >= 1 ==> c2 == Chr2Base(t[4 * g + 2])
    requires k >= 2 ==> c3 == Chr2Base(t[4 * g + 3])
    ensures OctetBits(Chr2Base(t[4 * g]), Chr2Base(t[4 * g + 1]), c2, c3, k) == Octet(Word(t, g), k)
  {
    hide Chr2Base, Octet, Join;
    SextetOfAnyCharacter(t[4 * g]);
    SextetOfAnyCharacter(t[4 * g + 1]);
    SextetOfAnyCharacter(t[4 * g + 2]);
    SextetOfAnyCharacter(t[4 * g + 3]);
    var c2', c3' := Chr2Base(t[4 * g + 2]), Chr2Base(t[4 * g + 3]);
    assert OctetBits(Chr2Base(t[4 * g]), Chr2Base(t[4 * g + 1]), c2, c3, k)
        == OctetBits(Chr2Base(t[4 * g]), Chr2Base(t[4 * g + 1]), c2', c3', k);
    hide OctetBits;
    OctetBitsAreOctets(Chr2Base(t[4 * g]), Chr2Base(t[4 * g + 1]), c2', c3', k);
  }

  lemma DecodedByte(t: seq<byte>, g: nat, k: nat)
    requires 4 * g + 3 < |t| && k < 3 && 3 * g + k < |Decode(t)|
    ensures Decode(t)[3 * g + k] == Octet(Word(t, g), k)
  {
    hide Octet, Word;
    assert (3 * g + k) / 3 == g && (3 * g + k) % 3 == k;
  }

  /** The first c bytes of group g of the decoding, as the decoder computes them. */
  lemma DecodedGroup(t: seq<byte>, g: nat, c2: byte, c3: byte, c: nat)
    requires 4 * g + 3 < |t| && c <= 3 && 3 * g + c <= |Decode(t)|
    requires c >= 2 ==> c2 == Chr2Base(t[4 * g + 2])
    requires c >= 3 ==> c3 == Chr2Base(t[4 * g + 3])
    ensures var c0, c1 := Chr2Base(t[4 * g]), Chr2Base(t[4 * g + 1]);
      && (c >= 1 ==> OctetBits(c0, c1, c2, c3, 0) == Decode(t)[3 * g])
      && (c >= 2 ==> OctetBits(c0, c1, c2, c3, 1) == Decode(t)[3 * g + 1])
      && (c >= 3 ==> OctetBits(c0, c1, c2, c3, 2) == Decode(t)[3 * g + 2])
  {
    hide Decode, Octet, Word, Chr2Base, OctetBits;
    if c >= 1 { GroupDecodes(t, g, 0, c2, c3); DecodedByte(t, g, 0); }
    if c >= 2 { GroupDecodes(t, g, 1, c2, c3); DecodedByte(t, g, 1); }
    if c >= 3 { GroupDecodes(t, g, 2, c2, c3); DecodedByte(t, g, 2); }
  }

  /** The decoder's first loop: whole groups before the last, until room runs out. */
  method DecodeGroups(input: array<byte>, ghost t: seq<byte>, x: nat, out: array<byte>, room: int) returns (z: nat)
    requires input != out && 4 * x + 4 <= |t| <= input.Length && input[..|t|] == t
    requires out.Length >= 1 && room < out.Length && 3 * x <= |Decode(t)|
    modifies out
    ensures z <= x && (z == 0 || 3 * z <= room) && (z < x ==> 3 * z + 3 > room)
    ensures 3 * z < out.Length
    ensures forall p :: 0 <= p < 3 * z ==> out[p] == Decode(t)[p]
    ensures forall p :: 3 * z <= p < out.Length ==> out[p] == old(out[p])
  {
    hide Octet, Word, Chr2Base, OctetBits, Decode;
    z := 0;
    var n := 0;
    while z < x
      modifies out
      invariant 0 <= z <= x && n == 3 * z && (n <= room || z == 0)
      invariant forall p :: 0 <= p < n ==> out[p] == Decode(t)[p]
      invariant forall p :: n <= p < out.Length ==> out[p] == old(out[p])
    {
      var j := 4 * z;
      assert forall p :: 0 <= p < |t| ==> input[p] == t[p];
      var a0, a1, a2, a3 := Chr2Base(input[j]), Chr2Base(input[j + 1]), Chr2Base(input[j + 2]), Chr2Base(input[j + 3]);
      if n + 3 > room {
        break;
      }
      DecodedGroup(t, z, a2, a3, 3);
      out[n] := OctetBits(a0, a1, a2, a3, 0);
      out[n + 1] := OctetBits(a0, a1, a2, a3, 1);
      out[n + 2] := OctetBits(a0, a1, a2, a3, 2);
      n := n + 3;
      z := z + 1;
    }
  }

  /** The decoder's last step: the group the loop stopped at, shortened by the padding of the whole text. */
  method DecodeLastGroup(input: array<byte>, ghost t: seq<byte>, len: nat, z: nat, out: array<byte>, room: int)
    returns (n: nat)
    requires input != out && len == |t| <= input.Length && input[..len] == t && 4 * z + 3 < len
    requires 3 * z < out.Length && room < out.Length && 3 * z + 3 - PadCount(t) <= |Decode(t)|
    modifies out
    ensures n == if 3 * z + 3 - PadCount(t) <= room then 3 * z + 3 - PadCount(t) else 3 * z
    ensures forall p :: 3 * z <= p < n ==> out[p] == Decode(t)[p]
    ensures forall p :: 0 <= p < out.Length && !(3 * z <= p < n) ==> out[p] == old(out[p])
  {
    hide Octet, Word, Chr2Base, OctetBits, Decode;
    assert forall p :: 0 <= p < len ==> input[p] == t[p];
    var j := 4 * z;
    var a0, a1, a2, a3 := Chr2Base(input[j]), Chr2Base(input[j + 1]), Chr2Base(input[j + 2]), Chr2Base(input[j + 3]);
    var y := if input[len - 2] == PAD then 2 else if input[len - 1] == PAD then 1 else 0;
    if y >= 1 { a3 := 0; }
    if y >= 2 { a2 := 0; }
    n := 3 * z;
    if n + 3 - y <= room {
      DecodedGroup(t, z, a2, a3, 3 - y);
      var m := 0;
      while m < 3 - y
        invariant 0 <= m <= 3 - y
        invariant forall p :: n <= p < n + m ==> out[p] == Decode(t)[p]
        invariant forall p :: 0 <= p < out.Length && !(n <= p < n + m) ==> out[p] == old(out[p])
      {
        out[n + m] := OctetBits(a0, a1, a2, a3, m);
        m := m + 1;
      }
      n := n + m;
    }
  }

  lemma DecodeSizes(t: seq<byte>, room: int)
    ensures PadCount(t) <= 2
    ensures |t| >= 4 ==> |Decode(t)| == |t| / 4 * 3 - PadCount(t)
    ensures |t| < 4 ==> Decode(t) == [] && DecodedLength(|t|, PadCount(t), room) == 0
    ensures |t| >= 4 ==> PadCount(t) == if t[|t| - 2] == PAD then 2 else if t[|t| - 1] == PAD then 1 else 0
  {
    hide Octet, Word;
  }

  lemma StopLength(len: nat, y: nat, room: int, z: nat)
    requires len >= 4 && y <= 2 && z <= (len - 4) / 4
    requires 3 * z <= room || z == 0
    requires z < (len - 4) / 4 ==> 3 * z + 3 > room
    ensures DecodedLength(len, y, room) == if 3 * z + 3 - y <= room then 3 * z + 3 - y else 3 * z
    ensures 3 * z + 3 - y <= len / 4 * 3 - y
  {
  }

  method Base64Decode(input: array<byte>, ghost text: seq<byte>, out: array<byte>, outLen: int) returns (n: nat)
    requires IsText(text) && HoldsText(input[..], text)
    requires out.Length >= 1 && outLen <= out.Length
    modifies input, out
    ensures input != out ==> HoldsText(input[..], AfterFilter(text))
    ensures input != out ==> n == DecodedLength(|text|, PadCount(AfterFilter(text)), outLen - 1) < out.Length
    ensures input != out ==>
      n <= |Decode(AfterFilter(text))| && out[..n] == Decode(AfterFilter(text))[..n] && out[n] == 0
    ensures input != out ==> forall k :: n < k < out.Length ==> out[k] == old(out[k])
    // into the buffer it reads from, the decoder first ends the text and then decodes nothing
    ensures input == out ==> n == 0 && out[0] == 0
    ensures input == out ==> forall k :: 1 <= k < out.Length ==>
      out[k] == if k < |text| then AfterFilter(text)[k] else old(out[k])
  {
    hide Filtered, AfterFilter, Chr2Base, Decode, DecodedLength, PadCount;
    Base64Filter(input, text);
    ghost var t := AfterFilter(text);
    ghost var filtered := input[..];
    out[0] := 0;
    var room := outLen - 1;
    var len := StrLen(input, if input == out then [] else t);
    DecodeSizes(t, room);
    if len < 4 {
      return 0;
    }
    var z := DecodeGroups(input, t, (len - 4) / 4, out, room);
    StopLength(len, PadCount(t), room, z);
    n := DecodeLastGroup(input, t, len, z, out, room);
    out[n] := 0;
  }

  /**
    Decoding an encoding into a buffer of outLen bytes leaves a prefix of the input: all of it
    exactly when it leaves room for the terminator.
   */
  lemma DecoderRoundTrip(s: seq<byte>, outLen: int)
    ensures AfterFilter(Encode(s)) == Encode(s) && Decode(Encode(s)) == s
    ensures var n := DecodedLength(|Encode(s)|, PadCount(Encode(s)), outLen - 1);
      && n <= |s|
      && (n == |s| <==> s == [] || |s| < outLen)
  {
    EncodingPassesFilter(s);
    DecodeEncode(s);
    hide Encode, Decode, PadCount, DecodedLength;
    DecodeSizes(Encode(s), outLen - 1);
    PaddingTellsLength(s);
  }
}
