/** The short-string codec: strings of at most six bytes are stored inside
    the word. Length 6 uses the packed form (tag 101, byte i at bit 8i, no
    length field); lengths 0..5 use the non-packed form (tag 110, the length
    in bits 40..47 and the n bytes right-aligned below it, byte i at bit
    8(5-n+i)). */
module Sso {
  import opened Util
  import opened NanBox

  const MaxSsoLen: nat := 6

  /** Byte `index` of `s`, zero-extended and shifted into place, where
      `to_sso_char` at the same offset reads it back. */
  function ToSsoNbVal(s: seq<Byte>, index: nat, shift: bv64): (r: Word)
    requires index < |s| && shift <= 40
    ensures ToSsoChar(r, shift) == s[index]
  {
    Lshift(s[index] as Word, shift)
  }

  /** A length below six as the 64-bit integer the source shifts into the
      length field. */
  function LengthWord(n: nat): (r: Word)
    requires n < MaxSsoLen
    ensures r <= 5
  {
    match n
    case 0 => 0
    case 1 => 1
    case 2 => 2
    case 3 => 3
    case 4 => 4
    case 5 => 5
  }

  /** Encodes a string of at most six bytes; the branch for each length is
      written out as in the source. */
  function MakeStringSso(s: seq<Byte>): Word
    requires |s| <= MaxSsoLen
  {
    var n := |s|;
    if n == MaxSsoLen then
      FixedTypePackedStringValue
      | ToSsoNbVal(s, 5, 40) | ToSsoNbVal(s, 4, 32) | ToSsoNbVal(s, 3, 24)
      | ToSsoNbVal(s, 2, 16) | ToSsoNbVal(s, 1, 8) | ToSsoNbVal(s, 0, 0)
    else
      var base := FixedTypeNonpackedStringValue | Lshift(LengthWord(n), 40);
      if n == 5 then
        base | ToSsoNbVal(s, 4, 32) | ToSsoNbVal(s, 3, 24) | ToSsoNbVal(s, 2, 16)
        | ToSsoNbVal(s, 1, 8) | ToSsoNbVal(s, 0, 0)
      else if n == 4 then
        base | ToSsoNbVal(s, 3, 32) | ToSsoNbVal(s, 2, 24) | ToSsoNbVal(s, 1, 16)
        | ToSsoNbVal(s, 0, 8)
      else if n == 3 then
        base | ToSsoNbVal(s, 2, 32) | ToSsoNbVal(s, 1, 24) | ToSsoNbVal(s, 0, 16)
      else if n == 2 then
        base | ToSsoNbVal(s, 1, 32) | ToSsoNbVal(s, 0, 24)
      else if n == 1 then
        base | ToSsoNbVal(s, 0, 32)
      else
        base
  }

  /** The byte at bit offset `shift` of the 48-bit payload. */
  function ToSsoChar(w: Word, shift: bv64): Byte
    requires shift <= 40
  {
    (((w & FixedTypeSsoStringDataMask) >> shift) & 0xFF) as Byte
  }

  function AsStringPackedSso(w: Word): (r: seq<Byte>)
    ensures |r| == MaxSsoLen
  {
    [ToSsoChar(w, 0), ToSsoChar(w, 8), ToSsoChar(w, 16),
     ToSsoChar(w, 24), ToSsoChar(w, 32), ToSsoChar(w, 40)]
  }

  /** The non-packed length field: a whole byte, bits 40..47. */
  function SsoLength(w: Word): Word
  {
    ((w & FixedTypeSsoStringDataMask) >> 40) & 0xFF
  }

  /** Decodes the non-packed form. A length field above 5 yields the empty
      string, as the source's `default` branch does. */
  function AsStringNonpackedSso(w: Word): (r: seq<Byte>)
    ensures |r| < MaxSsoLen
    ensures SsoLength(w) <= 5 ==> LengthWord(|r|) == SsoLength(w)
    ensures SsoLength(w) > 5 ==> r == []
  {
    var n := SsoLength(w);
    if n == 5 then
      [ToSsoChar(w, 0), ToSsoChar(w, 8), ToSsoChar(w, 16), ToSsoChar(w, 24), ToSsoChar(w, 32)]
    else if n == 4 then
      [ToSsoChar(w, 8), ToSsoChar(w, 16), ToSsoChar(w, 24), ToSsoChar(w, 32)]
    else if n == 3 then
      [ToSsoChar(w, 16), ToSsoChar(w, 24), ToSsoChar(w, 32)]
    else if n == 2 then
      [ToSsoChar(w, 24), ToSsoChar(w, 32)]
    else if n == 1 then
      [ToSsoChar(w, 32)]
    else
      []
  }

  /** The short-string test looks at the tag bits only: tags 101, 110 and
      111 pass, whatever the sign, exponent and quiet bits are. */
  predicate IsSsoString(w: Word)
    ensures IsSsoString(w) <==> TagField(w) >= 5
  {
    (w & FixedTypePackedStringMask == FixedTypePackedStringMask)
    || (w & FixedTypeNonpackedStringMask == FixedTypeNonpackedStringMask)
  }

  /** Decodes a short string; tags 101 and 111 take the packed path. */
  function AsStringSso(w: Word): (r: seq<Byte>)
    requires IsSsoString(w)
    ensures |r| <= MaxSsoLen
    ensures TagField(w) != 6 ==> |r| == MaxSsoLen
    ensures TagField(w) == 6 && SsoLength(w) <= 5 ==> |r| < MaxSsoLen && LengthWord(|r|) == SsoLength(w)
    ensures TagField(w) == 6 && SsoLength(w) > 5 ==> r == []
  {
    if w & FixedTypePackedStringMask == FixedTypePackedStringMask then
      AsStringPackedSso(w)
    else if w & FixedTypeNonpackedStringMask == FixedTypeNonpackedStringMask then
      AsStringNonpackedSso(w)
    else
      assert false; []
  }

  /** Bit offset of byte slot `k` of the 48-bit payload. */
  function SlotShift(k: nat): (r: bv64)
    requires k < MaxSsoLen
    ensures r <= 40
  {
    match k
    case 0 => 0
    case 1 => 8
    case 2 => 16
    case 3 => 24
    case 4 => 32
    case 5 => 40
  }

  /** Slot holding byte `i` of a string of length `n`: slot i in the packed
      form, slot 5-n+i otherwise (the bytes end just below the length). */
  function CharSlot(n: nat, i: nat): (k: nat)
    requires i < n <= MaxSsoLen
    ensures k < MaxSsoLen
  {
    if n == MaxSsoLen then i else 5 - n + i
  }

  /** The decoder reads byte i of a string of length n from `CharSlot(n, i)`. */
  lemma DecodedCharAt(w: Word, i: nat)
    requires IsSsoString(w) && i < |AsStringSso(w)|
    ensures AsStringSso(w)[i] == ToSsoChar(w, SlotShift(CharSlot(|AsStringSso(w)|, i)))
  {
    if w & FixedTypePackedStringMask == FixedTypePackedStringMask {
      PackedCharAt(w, i);
    } else {
      NonpackedCharAt(w, i);
    }
  }

  lemma PackedCharAt(w: Word, i: nat)
    requires i < MaxSsoLen
    ensures AsStringPackedSso(w)[i] == ToSsoChar(w, SlotShift(i))
  {
  }

  lemma NonpackedCharAt(w: Word, i: nat)
    requires i < |AsStringNonpackedSso(w)|
    ensures AsStringNonpackedSso(w)[i] == ToSsoChar(w, SlotShift(5 - |AsStringNonpackedSso(w)| + i))
  {
    var n := SsoLength(w);
    var r := AsStringNonpackedSso(w);
    if n == 5 {
      assert r == [ToSsoChar(w, 0), ToSsoChar(w, 8), ToSsoChar(w, 16), ToSsoChar(w, 24), ToSsoChar(w, 32)];
      match i
      case 0 => assert r[0] == ToSsoChar(w, SlotShift(0));
      case 1 => assert r[1] == ToSsoChar(w, SlotShift(1));
      case 2 => assert r[2] == ToSsoChar(w, SlotShift(2));
      case 3 => assert r[3] == ToSsoChar(w, SlotShift(3));
      case 4 => assert r[4] == ToSsoChar(w, SlotShift(4));
    } else if n == 4 {
      assert r == [ToSsoChar(w, 8), ToSsoChar(w, 16), ToSsoChar(w, 24), ToSsoChar(w, 32)];
      match i
      case 0 => assert r[0] == ToSsoChar(w, SlotShift(1));
      case 1 => assert r[1] == ToSsoChar(w, SlotShift(2));
      case 2 => assert r[2] == ToSsoChar(w, SlotShift(3));
      case 3 => assert r[3] == ToSsoChar(w, SlotShift(4));
    } else if n == 3 {
      assert r == [ToSsoChar(w, 16), ToSsoChar(w, 24), ToSsoChar(w, 32)];
      match i
      case 0 => assert r[0] == ToSsoChar(w, SlotShift(2));
      case 1 => assert r[1] == ToSsoChar(w, SlotShift(3));
      case 2 => assert r[2] == ToSsoChar(w, SlotShift(4));
    } else if n == 2 {
      assert r == [ToSsoChar(w, 24), ToSsoChar(w, 32)];
      match i
      case 0 => assert r[0] == ToSsoChar(w, SlotShift(3));
      case 1 => assert r[1] == ToSsoChar(w, SlotShift(4));
    } else if n == 1 {
      assert r == [ToSsoChar(w, 32)];
      match i
      case 0 => assert r[0] == ToSsoChar(w, SlotShift(4));
    }
  }

  /** Layout of an encoded short string: sign 0, exponent all ones, quiet
      bit set, tag 101 for six bytes and 110 otherwise, the length in bits
      40..47 for the non-packed form, and byte i in slot `CharSlot`. */
  lemma {:induction false} SsoLayout(s: seq<Byte>, i: nat)
    requires |s| <= MaxSsoLen && i < |s|
    ensures SsoHeader(MakeStringSso(s), |s|)
    ensures ToSsoChar(MakeStringSso(s), SlotShift(CharSlot(|s|, i))) == s[i]
  {
    SsoRoundTrip(s);
    DecodedCharAt(MakeStringSso(s), i);
  }

  /** Sign, exponent, quiet bit, tag and (non-packed) length of a short
      string of length `n`. */
  predicate SsoHeader(w: Word, n: nat)
  {
    && SignBit(w) == 0 && ExponentField(w) == 0x7FF && QuietBit(w) == 1
    && TagField(w) == (if n == MaxSsoLen then 5 else 6)
    && (n < MaxSsoLen ==> SsoLength(w) == LengthWord(n))
  }

  /** Every string of at most six bytes, high-bit bytes included, decodes
      back to itself. */
  lemma {:induction false} SsoRoundTrip(s: seq<Byte>)
    requires |s| <= MaxSsoLen
    ensures IsSsoString(MakeStringSso(s))
    ensures AsStringSso(MakeStringSso(s)) == s
    ensures SsoHeader(MakeStringSso(s), |s|)
  {
    match |s|
    case 6 => RoundTripPacked(s);
    case 5 => RoundTripFive(s);
    case 4 => RoundTripFour(s);
    case 3 => RoundTripThree(s);
    case 2 => RoundTripTwo(s);
    case 1 => RoundTripOne(s);
    case 0 => RoundTripEmpty(s);
  }

  // One length at a time: the encoded word with its shifts written out,
  // then the decoding of that word.
  lemma RoundTripPacked(s: seq<Byte>)
    requires |s| == 6
    ensures IsSsoString(MakeStringSso(s))
    ensures AsStringSso(MakeStringSso(s)) == s
    ensures SsoHeader(MakeStringSso(s), |s|)
  {
    EncodePacked(s);
    DecodePacked(MakeStringSso(s), s[0], s[1], s[2], s[3], s[4], s[5]);
    assert [s[0], s[1], s[2], s[3], s[4], s[5]] == s;
  }

  lemma EncodePacked(s: seq<Byte>)
    requires |s| == 6
    ensures MakeStringSso(s) == 0x7FFD_0000_0000_0000 | (s[5] as Word << 40) | (s[4] as Word << 32) |
      (s[3] as Word << 24) | (s[2] as Word << 16) | (s[1] as Word << 8) |
      s[0] as Word
  {
  }

  lemma DecodePacked(w: Word, b0: Byte, b1: Byte, b2: Byte, b3: Byte, b4: Byte, b5: Byte)
    requires w == 0x7FFD_0000_0000_0000 | (b5 as Word << 40) | (b4 as Word << 32) |
      (b3 as Word << 24) | (b2 as Word << 16) | (b1 as Word << 8) |
      b0 as Word
    ensures SsoHeader(w, 6)
    ensures IsSsoString(w) && AsStringSso(w) == AsStringPackedSso(w)
    ensures AsStringPackedSso(w) == [b0, b1, b2, b3, b4, b5]
  {
  }

  lemma RoundTripFive(s: seq<Byte>)
    requires |s| == 5
    ensures IsSsoString(MakeStringSso(s))
    ensures AsStringSso(MakeStringSso(s)) == s
    ensures SsoHeader(MakeStringSso(s), |s|)
  {
    EncodeFive(s);
    DecodeFive(MakeStringSso(s), s[0], s[1], s[2], s[3], s[4]);
    assert [s[0], s[1], s[2], s[3], s[4]] == s;
  }

  lemma EncodeFive(s: seq<Byte>)
    requires |s| == 5
    ensures MakeStringSso(s) == 0x7FFE_0500_0000_0000 | (s[4] as Word << 32) | (s[3] as Word << 24) |
      (s[2] as Word << 16) | (s[1] as Word << 8) | s[0] as Word
  {
  }

  lemma DecodeFive(w: Word, b0: Byte, b1: Byte, b2: Byte, b3: Byte, b4: Byte)
    requires w == 0x7FFE_0500_0000_0000 | (b4 as Word << 32) | (b3 as Word << 24) |
      (b2 as Word << 16) | (b1 as Word << 8) | b0 as Word
    ensures SsoHeader(w, 5)
    ensures IsSsoString(w) && AsStringSso(w) == AsStringNonpackedSso(w)
    ensures SsoLength(w) == 5
    ensures AsStringNonpackedSso(w) == [b0, b1, b2, b3, b4]
  {
  }

  lemma RoundTripFour(s: seq<Byte>)
    requires |s| == 4
    ensures IsSsoString(MakeStringSso(s))
    ensures AsStringSso(MakeStringSso(s)) == s
    ensures SsoHeader(MakeStringSso(s), |s|)
  {
    EncodeFour(s);
    DecodeFour(MakeStringSso(s), s[0], s[1], s[2], s[3]);
    assert [s[0], s[1], s[2], s[3]] == s;
  }

  lemma EncodeFour(s: seq<Byte>)
    requires |s| == 4
    ensures MakeStringSso(s) == 0x7FFE_0400_0000_0000 | (s[3] as Word << 32) | (s[2] as Word << 24) |
      (s[1] as Word << 16) | (s[0] as Word << 8)
  {
  }

  lemma DecodeFour(w: Word, b0: Byte, b1: Byte, b2: Byte, b3: Byte)
    requires w == 0x7FFE_0400_0000_0000 | (b3 as Word << 32) | (b2 as Word << 24) |
      (b1 as Word << 16) | (b0 as Word << 8)
    ensures SsoHeader(w, 4)
    ensures IsSsoString(w) && AsStringSso(w) == AsStringNonpackedSso(w)
    ensures SsoLength(w) == 4
    ensures AsStringNonpackedSso(w) == [b0, b1, b2, b3]
  {
  }

  lemma RoundTripThree(s: seq<Byte>)
    requires |s| == 3
    ensures IsSsoString(MakeStringSso(s))
    ensures AsStringSso(MakeStringSso(s)) == s
    ensures SsoHeader(MakeStringSso(s), |s|)
  {
    EncodeThree(s);
    DecodeThree(MakeStringSso(s), s[0], s[1], s[2]);
    assert [s[0], s[1], s[2]] == s;
  }

  lemma EncodeThree(s: seq<Byte>)
    requires |s| == 3
    ensures MakeStringSso(s) == 0x7FFE_0300_0000_0000 | (s[2] as Word << 32) | (s[1] as Word << 24) |
      (s[0] as Word << 16)
  {
  }

  lemma DecodeThree(w: Word, b0: Byte, b1: Byte, b2: Byte)
    requires w == 0x7FFE_0300_0000_0000 | (b2 as Word << 32) | (b1 as Word << 24) |
      (b0 as Word << 16)
    ensures SsoHeader(w, 3)
    ensures IsSsoString(w) && AsStringSso(w) == AsStringNonpackedSso(w)
    ensures SsoLength(w) == 3
    ensures AsStringNonpackedSso(w) == [b0, b1, b2]
  {
  }

  lemma RoundTripTwo(s: seq<Byte>)
    requires |s| == 2
    ensures IsSsoString(MakeStringSso(s))
    ensures AsStringSso(MakeStringSso(s)) == s
    ensures SsoHeader(MakeStringSso(s), |s|)
  {
    EncodeTwo(s);
    DecodeTwo(MakeStringSso(s), s[0], s[1]);
    assert [s[0], s[1]] == s;
  }

  lemma EncodeTwo(s: seq<Byte>)
    requires |s| == 2
    ensures MakeStringSso(s) == 0x7FFE_0200_0000_0000 | (s[1] as Word << 32) | (s[0] as Word << 24)
  {
  }

  lemma DecodeTwo(w: Word, b0: Byte, b1: Byte)
    requires w == 0x7FFE_0200_0000_0000 | (b1 as Word << 32) | (b0 as Word << 24)
    ensures SsoHeader(w, 2)
    ensures IsSsoString(w) && AsStringSso(w) == AsStringNonpackedSso(w)
    ensures SsoLength(w) == 2
    ensures AsStringNonpackedSso(w) == [b0, b1]
  {
  }

  lemma RoundTripOne(s: seq<Byte>)
    requires |s| == 1
    ensures IsSsoString(MakeStringSso(s))
    ensures AsStringSso(MakeStringSso(s)) == s
    ensures SsoHeader(MakeStringSso(s), |s|)
  {
    EncodeOne(s);
    DecodeOne(MakeStringSso(s), s[0]);
    assert [s[0]] == s;
  }

  lemma EncodeOne(s: seq<Byte>)
    requires |s| == 1
    ensures MakeStringSso(s) == 0x7FFE_0100_0000_0000 | (s[0] as Word << 32)
  {
  }

  lemma DecodeOne(w: Word, b0: Byte)
    requires w == 0x7FFE_0100_0000_0000 | (b0 as Word << 32)
    ensures SsoHeader(w, 1)
    ensures IsSsoString(w) && AsStringSso(w) == AsStringNonpackedSso(w)
    ensures SsoLength(w) == 1
    ensures AsStringNonpackedSso(w) == [b0]
  {
  }

  lemma RoundTripEmpty(s: seq<Byte>)
    requires |s| == 0
    ensures IsSsoString(MakeStringSso(s))
    ensures AsStringSso(MakeStringSso(s)) == s
    ensures SsoHeader(MakeStringSso(s), |s|)
  {
    EncodeEmpty(s);
    DecodeEmpty(MakeStringSso(s));
  }

  lemma EncodeEmpty(s: seq<Byte>)
    requires |s| == 0
    ensures MakeStringSso(s) == 0x7FFE_0000_0000_0000
  {
  }

  lemma DecodeEmpty(w: Word)
    requires w == 0x7FFE_0000_0000_0000
    ensures SsoHeader(w, 0)
    ensures IsSsoString(w) && AsStringSso(w) == AsStringNonpackedSso(w)
    ensures SsoLength(w) == 0
    ensures AsStringNonpackedSso(w) == []
  {
  }
}
