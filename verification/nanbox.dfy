/** The bit layout of a NaN-boxed word.

      S[Exponent(11)]Q[Tag(3)][Payload(48)]

    A word whose 11 exponent bits are all ones is NaN-shaped. Every tagged
    kind uses sign 0, an all-ones exponent, the quiet bit 51 and a 3-bit tag
    in bits 48..50; heap references use sign 1, exponent all ones, quiet bit
    set and tag 000, with the address in the low 48 bits. */
module NanBox {
  import opened Util

  type Word = bv64

  // Masks. The header builds each one with `Lshift`; here they are written
  // as the words that computation yields, and `MasksAreShifts` proves the two
  // agree.

  const SignMask: Word := 0x8000_0000_0000_0000
  const NanExponentMask: Word := 0x7FF0_0000_0000_0000
  const NanQuietMask: Word := 0x0008_0000_0000_0000

  const FixedTypeMask: Word := 0x0007_0000_0000_0000
  /** The top 16 bits: sign, exponent, quiet bit and tag. */
  const SignatureMask: Word := 0xFFFF_0000_0000_0000

  const FixedTypeNanMask: Word := 0
  const FixedTypeFalseMask: Word := 0x0001_0000_0000_0000
  const FixedTypeTrueMask: Word := 0x0002_0000_0000_0000
  const FixedTypeNullMask: Word := 0x0003_0000_0000_0000
  const FixedTypeInt32Mask: Word := 0x0004_0000_0000_0000
  const FixedTypeInt32DataMask: Word := 0xFFFF_FFFF
  const FixedTypePackedStringMask: Word := 0x0005_0000_0000_0000
  const FixedTypeNonpackedStringMask: Word := 0x0006_0000_0000_0000
  const FixedTypeSsoStringDataMask: Word := 0xFFFF_FFFF_FFFF

  /** A fixed-kind signature as the header composes it: exponent all ones,
      quiet bit, the given tag, and the sign bit cleared. */
  function FixedValue(tagMask: Word): Word
  {
    (NanExponentMask | NanQuietMask | tagMask) & !SignMask
  }

  // Signatures, again as the words `SignaturesAreComposed` derives.

  const FixedTypeQnanValue: Word := 0x7FF8_0000_0000_0000
  /** Declared separately from the quiet NaN but built from the same parts. */
  const FixedTypeSnanValue: Word := 0x7FF8_0000_0000_0000
  const FixedTypeFalseValue: Word := 0x7FF9_0000_0000_0000
  const FixedTypeTrueValue: Word := 0x7FFA_0000_0000_0000
  const FixedTypeNullValue: Word := 0x7FFB_0000_0000_0000
  const FixedTypeInt32Value: Word := 0x7FFC_0000_0000_0000
  const FixedTypePackedStringValue: Word := 0x7FFD_0000_0000_0000
  const FixedTypeNonpackedStringValue: Word := 0x7FFE_0000_0000_0000

  const HeapTypeValue: Word := 0xFFF8_0000_0000_0000
  const HeapTypeDataMask: Word := 0xFFFF_FFFF_FFFF

  /** Each mask is the shift the header computes it with. */
  lemma MasksAreShifts()
    ensures SignMask == Lshift(1, 63)
    ensures NanExponentMask == Lshift(0x7FF, 52)
    ensures NanQuietMask == Lshift(1, 51)
    ensures FixedTypeMask == Lshift(0x7, 48)
    ensures SignatureMask == Lshift(0xFFFF, 48)
    ensures FixedTypeNanMask == Lshift(0x0, 48)
    ensures FixedTypeFalseMask == Lshift(0x1, 48)
    ensures FixedTypeTrueMask == Lshift(0x2, 48)
    ensures FixedTypeNullMask == Lshift(0x3, 48)
    ensures FixedTypeInt32Mask == Lshift(0x4, 48)
    ensures FixedTypePackedStringMask == Lshift(0x5, 48)
    ensures FixedTypeNonpackedStringMask == Lshift(0x6, 48)
  {
  }

  /** Each signature is composed from the masks as the header composes it. */
  lemma SignaturesAreComposed()
    ensures FixedTypeQnanValue == FixedValue(FixedTypeNanMask)
    ensures FixedTypeSnanValue == FixedValue(FixedTypeNanMask)
    ensures FixedTypeFalseValue == FixedValue(FixedTypeFalseMask)
    ensures FixedTypeTrueValue == FixedValue(FixedTypeTrueMask)
    ensures FixedTypeNullValue == FixedValue(FixedTypeNullMask)
    ensures FixedTypeInt32Value == FixedValue(FixedTypeInt32Mask)
    ensures FixedTypePackedStringValue == FixedValue(FixedTypePackedStringMask)
    ensures FixedTypeNonpackedStringValue == FixedValue(FixedTypeNonpackedStringMask)
    ensures HeapTypeValue == SignMask | NanExponentMask | NanQuietMask
  {
  }

  /** The seven fixed signatures, indexed by their tag. */
  const FixedSignatures: seq<Word> := [
    FixedTypeQnanValue, FixedTypeFalseValue, FixedTypeTrueValue,
    FixedTypeNullValue, FixedTypeInt32Value, FixedTypePackedStringValue,
    FixedTypeNonpackedStringValue
  ]

  // Field extractors used to state the layout.

  function SignBit(w: Word): Word { w >> 63 }
  function ExponentField(w: Word): Word { (w >> 52) & 0x7FF }
  function QuietBit(w: Word): Word { (w >> 51) & 1 }
  function TagField(w: Word): Word { (w >> 48) & 0x7 }
  function PayloadField(w: Word): Word { w & 0xFFFF_FFFF_FFFF }

  /** The layout every fixed signature shares: sign 0, exponent all ones,
      quiet bit set, the given tag and an empty payload. */
  predicate FixedLayout(w: Word, tag: Word)
  {
    SignBit(w) == 0 && ExponentField(w) == 0x7FF && QuietBit(w) == 1 &&
    TagField(w) == tag && PayloadField(w) == 0
  }

  /** Each fixed signature has the shared layout with its own tag, 000 to 110
      in the order of the tag table. */
  lemma FixedSignatureLayout()
    ensures FixedLayout(FixedTypeQnanValue, 0)
    ensures FixedLayout(FixedTypeFalseValue, 1)
    ensures FixedLayout(FixedTypeTrueValue, 2)
    ensures FixedLayout(FixedTypeNullValue, 3)
    ensures FixedLayout(FixedTypeInt32Value, 4)
    ensures FixedLayout(FixedTypePackedStringValue, 5)
    ensures FixedLayout(FixedTypeNonpackedStringValue, 6)
  {
  }

  /** The fixed signatures differ pairwise, so a tag identifies one kind. */
  lemma FixedSignaturesDistinct()
    ensures forall i, j :: 0 <= i < j < |FixedSignatures| ==> FixedSignatures[i] != FixedSignatures[j]
  {
  }

  lemma SnanIsQnan()
    ensures FixedTypeSnanValue == FixedTypeQnanValue
  {
  }

  /** The heap signature: sign set, exponent all ones, quiet bit set, tag 000,
      empty payload; it is none of the fixed signatures. */
  lemma HeapSignatureLayout()
    ensures SignBit(HeapTypeValue) == 1
    ensures ExponentField(HeapTypeValue) == 0x7FF
    ensures QuietBit(HeapTypeValue) == 1
    ensures TagField(HeapTypeValue) == 0
    ensures PayloadField(HeapTypeValue) == 0
    ensures HeapTypeValue !in FixedSignatures
  {
  }

  /** Payload and signature regions split the word: the two 48-bit data
      masks are the low 48 bits, disjoint from the signature mask and
      together with it covering all 64 bits; the int32 payload lies inside
      the 48-bit region. */
  lemma DataRegions()
    ensures HeapTypeDataMask == FixedTypeSsoStringDataMask
    ensures HeapTypeDataMask & SignatureMask == 0
    ensures HeapTypeDataMask | SignatureMask == 0xFFFF_FFFF_FFFF_FFFF
    ensures FixedTypeInt32DataMask & HeapTypeDataMask == FixedTypeInt32DataMask
  {
  }

  /** Signatures live entirely in the top 16 bits, so masking a word with
      `SignatureMask` and comparing against a signature tests the whole
      signature. */
  lemma SignaturesInsideSignatureMask()
    ensures forall i :: 0 <= i < |FixedSignatures| ==> FixedSignatures[i] & SignatureMask == FixedSignatures[i]
    ensures HeapTypeValue & SignatureMask == HeapTypeValue
  {
  }
}
