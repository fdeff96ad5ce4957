/** Base64 (section 4 of RFC 4648) with a streaming encoder and a group decoder over bounded buffers. */
module Base64 {
  import opened Bytes

  const PAD: byte := 61  // '='

  // ---------- the alphabet ----------

  function Base2Chr(n: byte): byte {
    var m := n & 0x3F;
    if m < 26 then m + 65
    else if m < 52 then m - 26 + 97
    else if m < 62 then m - 52 + 48
    else if m == 62 then 43
    else 47
  }

  function Chr2Base(c: byte): byte {
    if 65 <= c <= 90 then c - 65
    else if 97 <= c <= 122 then c - 97 + 26
    else if 48 <= c <= 57 then c - 48 + 52
    else if c == 43 then 62
    else 63
  }

  predicate IsLegal(c: byte) {
    97 <= c <= 122 || 65 <= c <= 90 || 48 <= c <= 57 || c == 37 || c == 47 || c == 43 || c == 61
  }

  lemma AlphabetInverse(n: byte)
    requires n < 64
    ensures Chr2Base(Base2Chr(n)) == n
    ensures IsLegal(Base2Chr(n)) && Base2Chr(n) != PAD && Base2Chr(n) != 0
  {
  }

  /** Table 1 of RFC 4648: A to Z, a to z, 0 to 9, '+' and '/'. */
  function Letter(n: byte): byte {
    match n
    case 0 => 65 case 1 => 66 case 2 => 67 case 3 => 68 case 4 => 69 case 5 => 70 case 6 => 71
    case 7 => 72 case 8 => 73 case 9 => 74 case 10 => 75 case 11 => 76 case 12 => 77 case 13 => 78
    case 14 => 79 case 15 => 80 case 16 => 81 case 17 => 82 case 18 => 83 case 19 => 84 case 20 => 85
    case 21 => 86 case 22 => 87 case 23 => 88 case 24 => 89 case 25 => 90 case 26 => 97 case 27 => 98
    case 28 => 99 case 29 => 100 case 30 => 101 case 31 => 102 case 32 => 103 case 33 => 104 case 34 => 105
    case 35 => 106 case 36 => 107 case 37 => 108 case 38 => 109 case 39 => 110 case 40 => 111 case 41 => 112
    case 42 => 113 case 43 => 114 case 44 => 115 case 45 => 116 case 46 => 117 case 47 => 118 case 48 => 119
    case 49 => 120 case 50 => 121 case 51 => 122 case 52 => 48 case 53 => 49 case 54 => 50 case 55 => 51
    case 56 => 52 case 57 => 53 case 58 => 54 case 59 => 55 case 60 => 56 case 61 => 57 case 62 => 43
    case 63 => 47
    case _ => 0
  }

  lemma FirstUpperRow(n: byte)
    requires n < 13
    ensures Letter(n) == n + 65
  {
  }

  lemma LastUpperRow(n: byte)
    requires 13 <= n < 26
    ensures Letter(n) == n + 65
  {
  }

  lemma FirstLowerRow(n: byte)
    requires 26 <= n < 35
    ensures Letter(n) == n - 26 + 97
  {
  }

  lemma MiddleLowerRow(n: byte)
    requires 35 <= n < 44
    ensures Letter(n) == n - 26 + 97
  {
  }

  lemma LastLowerRow(n: byte)
    requires 44 <= n < 52
    ensures Letter(n) == n - 26 + 97
  {
  }

  lemma FirstDigitRow(n: byte)
    requires 52 <= n < 58
    ensures Letter(n) == n - 52 + 48
  {
  }

  lemma LastRow(n: byte)
    requires 58 <= n < 64
    ensures Letter(n) == if n == 62 then 43 else if n == 63 then 47 else n - 52 + 48
  {
  }

  lemma LettersAlike(n: byte)
    requires n < 64
    ensures Letter(n) == Base2Chr(n)
  {
    hide Letter;
    if n < 13 {
      FirstUpperRow(n);
    } else if n < 26 {
      LastUpperRow(n);
    } else if n < 35 {
      FirstLowerRow(n);
    } else if n < 44 {
      MiddleLowerRow(n);
    } else if n < 52 {
      LastLowerRow(n);
    } else if n < 58 {
      FirstDigitRow(n);
    } else {
      LastRow(n);
    }
  }

  /** The encoder's characters are those of the table, and the decoder's values their places in it. */
  lemma AlphabetIsTable(n: byte)
    requires n < 64
    ensures Base2Chr(n) == Letter(n) && Chr2Base(Letter(n)) == n
  {
    hide Base2Chr, Chr2Base, Letter;
    LettersAlike(n);
    AlphabetInverse(n);
  }

  /** The characters of the table. */
  ghost predicate InTable(c: byte) {
    exists n: byte :: n < 64 && Letter(n) == c
  }

  lemma LegalByValue(c: byte)
    ensures IsLegal(c) <==> Base2Chr(Chr2Base(c)) == c || c == 37 || c == 61
    ensures Base2Chr(Chr2Base(c)) != c ==> Chr2Base(c) == 63
    ensures Chr2Base(c) < 64
  {
  }

  /** What the filter lets through is the table, '%' and '='; what the table does not hold decodes as its last place. */
  lemma LegalExact(c: byte)
    ensures IsLegal(c) <==> InTable(c) || c == 37 || c == 61
    ensures !InTable(c) ==> Chr2Base(c) == 63
  {
    hide IsLegal, Base2Chr, Chr2Base, Letter;
    LegalByValue(c);
    AlphabetIsTable(Chr2Base(c));
    if n: byte :| n < 64 && Letter(n) == c { AlphabetIsTable(n); }
  }

  // ---------- the reference encoding ----------

  function ByteOrZero(s: seq<byte>, i: nat): byte {
    if i < |s| then s[i] else 0
  }

  function Octets(b0: byte, b1: byte, b2: byte): bv24 {
    (b0 as bv24 << 16) | (b1 as bv24 << 8) | b2 as bv24
  }

  /** Three input bytes, zero-filled past the end, as one 24-bit group. */
  function Group(s: seq<byte>, g: nat): bv24 {
    Octets(ByteOrZero(s, 3 * g), ByteOrZero(s, 3 * g + 1), ByteOrZero(s, 3 * g + 2))
  }

  function Sextet(group: bv24, k: nat): byte
    requires k < 4
  {
    if k == 0 then ((group >> 18) & 0x3F) as byte
    else if k == 1 then ((group >> 12) & 0x3F) as byte
    else if k == 2 then ((group >> 6) & 0x3F) as byte
    else (group & 0x3F) as byte
  }

  function EncodedChar(s: seq<byte>, p: nat): byte {
    var g, k := p / 4, p % 4;
    if (k == 2 && 3 * g + 1 >= |s|) || (k == 3 && 3 * g + 2 >= |s|) then PAD
    else Base2Chr(Sextet(Group(s, g), k))
  }

  function EncodedLength(n: nat): nat {
    (n + 2) / 3 * 4
  }

  function Encode(s: seq<byte>): (t: seq<byte>)
    ensures |t| == EncodedLength(|s|)
  {
    seq(EncodedLength(|s|), p requires 0 <= p => EncodedChar(s, p))
  }

  // ---------- the reference decoding ----------

  function Join(c0: byte, c1: byte, c2: byte, c3: byte): bv24 {
    (c0 as bv24 << 18) | (c1 as bv24 << 12) | (c2 as bv24 << 6) | c3 as bv24
  }

  function Word(t: seq<byte>, g: nat): bv24
    requires 4 * g + 3 < |t|
  {
    Join(Chr2Base(t[4 * g]), Chr2Base(t[4 * g + 1]), Chr2Base(t[4 * g + 2]), Chr2Base(t[4 * g + 3]))
  }

  function Octet(word: bv24, k: nat): byte
    requires k < 3
  {
    if k == 0 then ((word >> 16) & 0xFF) as byte
    else if k == 1 then ((word >> 8) & 0xFF) as byte
    else (word & 0xFF) as byte
  }

  function PadCount(t: seq<byte>): nat {
    if |t| < 4 then 0
    else if t[|t| - 2] == PAD then 2
    else if t[|t| - 1] == PAD then 1
    else 0
  }

  function Decode(t: seq<byte>): (s: seq<byte>)
    ensures |t| >= 4 ==> |s| == |t| / 4 * 3 - PadCount(t)
  {
    if |t| < 4 then []
    else seq(|t| / 4 * 3 - PadCount(t), m requires 0 <= m < |t| / 4 * 3 => Octet(Word(t, m / 3), m % 3))
  }

  /** Two bytes less when the last character but one is '=', one less when only the last one is. */
  lemma DecodedCount(t: seq<byte>)
    ensures |t| < 4 ==> Decode(t) == []
    ensures |t| >= 4 ==>
      |Decode(t)| == |t| / 4 * 3 - if t[|t| - 2] == 61 then 2 else if t[|t| - 1] == 61 then 1 else 0
  {
  }

  // ---------- decoding undoes encoding ----------

  lemma FirstOctet(c0: byte, c1: byte, c2: byte, c3: byte, group: bv24)
    requires c0 == Sextet(group, 0) && c1 == Sextet(group, 1) && c2 < 64 && c3 < 64
    ensures Octet(Join(c0, c1, c2, c3), 0) == Octet(group, 0)
  {
  }

  lemma SecondOctet(c0: byte, c1: byte, c2: byte, c3: byte, group: bv24)
    requires c0 < 64 && c1 == Sextet(group, 1) && c2 == Sextet(group, 2) && c3 < 64
    ensures Octet(Join(c0, c1, c2, c3), 1) == Octet(group, 1)
  {
  }

  lemma ThirdOctet(c0: byte, c1: byte, c2: byte, c3: byte, group: bv24)
    requires c0 < 64 && c1 < 64 && c2 == Sextet(group, 2) && c3 == Sextet(group, 3)
    ensures Octet(Join(c0, c1, c2, c3), 2) == Octet(group, 2)
  {
  }

  lemma GroupOctets(b0: byte, b1: byte, b2: byte)
    ensures var group := Octets(b0, b1, b2);
      Octet(group, 0) == b0 && Octet(group, 1) == b1 && Octet(group, 2) == b2
  {
  }

  lemma SextetBelow64(group: bv24, k: nat)
    requires k < 4
    ensures Sextet(group, k) < 64
  {
  }

  /** Every non-padding character of an encoding maps back to its sextet. */
  lemma CharacterInverse(s: seq<byte>, p: nat)
    requires p % 4 < 2 || 3 * (p / 4) + p % 4 - 1 < |s|
    ensures Chr2Base(EncodedChar(s, p)) == Sextet(Group(s, p / 4), p % 4)
    ensures EncodedChar(s, p) != PAD
  {
    hide Base2Chr, Chr2Base, Sextet, Group;
    SextetBelow64(Group(s, p / 4), p % 4);
    AlphabetInverse(Sextet(Group(s, p / 4), p % 4));
  }

  lemma PositionInGroup(g: nat, k: nat)
    requires k < 4
    ensures (4 * g + k) / 4 == g && (4 * g + k) % 4 == k
  {
  }

  /** The third and the fourth character of a group are padding where the input has ended. */
  lemma CharacterPads(s: seq<byte>, g: nat, k: nat)
    requires k == 2 || k == 3
    ensures EncodedChar(s, 4 * g + k) == PAD <==> 3 * g + k - 1 >= |s|
  {
    hide Base2Chr, Chr2Base, Sextet, Group;
    PositionInGroup(g, k);
    if 3 * g + k - 1 < |s| { CharacterInverse(s, 4 * g + k); }
  }

  lemma LastGroup(n: nat)
    requires n > 0
    ensures var g := (n - 1) / 3;
      && EncodedLength(n) == 4 * g + 4
      && (3 * g + 1 >= n <==> n % 3 == 1) && (3 * g + 2 >= n <==> n % 3 != 0)
  {
  }

  lemma LastCharacters(s: seq<byte>)
    requires |s| > 0
    ensures var n := EncodedLength(|s|);
      && n >= 4
      && (Encode(s)[n - 2] == PAD <==> |s| % 3 == 1)
      && (Encode(s)[n - 1] == PAD <==> |s| % 3 != 0)
  {
    hide EncodedChar, EncodedLength;
    var g := (|s| - 1) / 3;
    LastGroup(|s|);
    CharacterPads(s, g, 2);
    CharacterPads(s, g, 3);
  }

  lemma NothingEncoded()
    ensures |Encode([])| == EncodedLength(0) == 0
  {
  }

  lemma CeilOfThird(m: nat, q: nat)
    requires q < 3
    ensures (3 * m + q + 2) / 3 == if q == 0 then m else m + 1
  {
  }

  lemma Quarter(n: nat)
    ensures 4 * n / 4 == n
  {
  }

  lemma EncodedGroups(n: nat)
    ensures EncodedLength(n) == 4 * (n / 3 + if n % 3 == 0 then 0 else 1)
  {
    CeilOfThird(n / 3, n % 3);
  }

  lemma EncodedLengthBack(n: nat)
    ensures EncodedLength(n) / 4 * 3 == n + if n % 3 == 0 then 0 else 3 - n % 3
    ensures n > 0 ==> EncodedLength(n) >= 4
  {
    hide EncodedLength;
    EncodedGroups(n);
    Quarter(n / 3 + if n % 3 == 0 then 0 else 1);
  }

  /** The padding characters of an encoding tell how many bytes its last group lacks. */
  lemma PaddingTellsLength(s: seq<byte>)
    ensures |Encode(s)| / 4 * 3 - PadCount(Encode(s)) == |s|
    ensures |s| > 0 ==> |Encode(s)| >= 4
  {
    hide Encode, EncodedLength;
    EncodedLengthBack(|s|);
    if |s| > 0 { LastCharacters(s); } else { NothingEncoded(); }
  }

  lemma GroupHoldsByte(s: seq<byte>, m: nat)
    requires m < |s|
    ensures Octet(Group(s, m / 3), m % 3) == s[m]
  {
    hide Octet, Octets;
    var g := m / 3;
    GroupOctets(ByteOrZero(s, 3 * g), ByteOrZero(s, 3 * g + 1), ByteOrZero(s, 3 * g + 2));
  }

  lemma SextetOfAnyCharacter(c: byte)
    ensures Chr2Base(c) < 64
  {
  }

  /** The octet read back from any position of an encoding is the byte that was written there. */
  lemma OctetInverse(s: seq<byte>, m: nat)
    requires m < |s|
    ensures 4 * (m / 3) + 3 < |Encode(s)|
    ensures Octet(Word(Encode(s), m / 3), m % 3) == s[m]
  {
    hide EncodedChar, Chr2Base, Sextet, Octet, Join, Group;
    var g, k := m / 3, m % 3;
    var t, group := Encode(s), Group(s, g);
    var c0, c1, c2, c3 := Chr2Base(t[4 * g]), Chr2Base(t[4 * g + 1]), Chr2Base(t[4 * g + 2]), Chr2Base(t[4 * g + 3]);
    SextetOfAnyCharacter(t[4 * g]);
    SextetOfAnyCharacter(t[4 * g + 1]);
    SextetOfAnyCharacter(t[4 * g + 2]);
    SextetOfAnyCharacter(t[4 * g + 3]);
    CharacterInverse(s, 4 * g + k);
    CharacterInverse(s, 4 * g + k + 1);
    if k == 0 {
      FirstOctet(c0, c1, c2, c3, group);
    } else if k == 1 {
      SecondOctet(c0, c1, c2, c3, group);
    } else {
      ThirdOctet(c0, c1, c2, c3, group);
    }
    GroupHoldsByte(s, m);
  }

  /** Decoding an encoding gives back the bytes. */
  lemma DecodeEncode(s: seq<byte>)
    ensures Decode(Encode(s)) == s
  {
    hide EncodedChar, Octet, Word;
    PaddingTellsLength(s);
    forall m | 0 <= m < |s|
      ensures Decode(Encode(s))[m] == s[m]
    {
      OctetInverse(s, m);
    }
  }

  lemma VectorFoob()
    ensures Encode([102, 111, 111, 98]) == [90, 109, 57, 118, 89, 103, PAD, PAD]
  {
    var foob: seq<byte> := [102, 111, 111, 98];
    assert Group(foob, 0) == 0x666F6F && Group(foob, 1) == 0x620000;
    assert Sextet(0x666F6F, 0) == 25 && Sextet(0x666F6F, 1) == 38
        && Sextet(0x666F6F, 2) == 61 && Sextet(0x666F6F, 3) == 47;
    assert Sextet(0x620000, 0) == 24 && Sextet(0x620000, 1) == 32;
  }

  lemma VectorFooba()
    ensures Encode([102, 111, 111, 98, 97]) == [90, 109, 57, 118, 89, 109, 69, PAD]
  {
    var fooba: seq<byte> := [102, 111, 111, 98, 97];
    assert Group(fooba, 0) == 0x666F6F && Group(fooba, 1) == 0x626100;
    assert Sextet(0x666F6F, 0) == 25 && Sextet(0x666F6F, 1) == 38
        && Sextet(0x666F6F, 2) == 61 && Sextet(0x666F6F, 3) == 47;
    assert Sextet(0x626100, 0) == 24 && Sextet(0x626100, 1) == 38 && Sextet(0x626100, 2) == 4;
  }

  /** Section 10 of RFC 4648: "foob" is "Zm9vYg==" and "fooba" is "Zm9vYmE=". */
  lemma TestVectors()
    ensures Encode([102, 111, 111, 98]) == [90, 109, 57, 118, 89, 103, PAD, PAD]
    ensures Encode([102, 111, 111, 98, 97]) == [90, 109, 57, 118, 89, 109, 69, PAD]
  {
    VectorFoob();
    VectorFooba();
  }
}
