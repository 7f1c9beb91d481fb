/** The inline kinds of a boxed value (object.hpp): the constructors, the
    `is_*` tests and the `as_*` accessors of qnan, nothing, boolean, int32,
    float64 and short strings, and the word-level heap tests. A value is its
    64-bit word; a double is its bit pattern. */
module Object {
  import opened Util
  import opened NanBox
  import opened Sso
  import opened HeapObject

  /** The top sixteen bits, the part every `is_*` test compares. */
  function Signature(w: Word): Word { w >> 48 }

  // Constructors.

  /** The default constructor stores the double 0.0, whose bits are all
      zero; it is a float, not nothing. */
  function MakeDefault(): (w: Word)
    ensures IsFloat64(w) && !IsNothing(w)
    ensures SignBit(w) == 0 && ExponentField(w) == 0 && PayloadField(w) == 0
  {
    0
  }

  function MakeQnan(): (w: Word)
    ensures IsQnan(w) && IsNaN(w)
    ensures SignBit(w) == 0 && TagField(w) == 0 && PayloadField(w) == 0
  {
    FixedTypeQnanValue
  }

  function MakeNothing(): (w: Word)
    ensures IsNothing(w) && TagField(w) == 3 && PayloadField(w) == 0
  {
    FixedTypeNullValue
  }

  function FromBool(b: bool): (w: Word)
    ensures IsBoolean(w) && AsBoolean(w) == b
    ensures TagField(w) == if b then 2 else 1
  {
    if b then FixedTypeTrueValue else FixedTypeFalseValue
  }

  /** The int32 constructor reinterprets its 4-byte argument as an 8-byte
      word: on a little-endian machine the low half is the argument's two's
      complement pattern and the high half, `overread`, whatever lies after
      it. The int32 data mask discards the high half, so the result is the
      same for every `overread`. */
  function FromInt32(x: bv32, overread: bv32): (w: Word)
    ensures IsInt32(w) && AsInt32(w) == x
    ensures w == FixedTypeInt32Value | x as Word
  {
    Int32Layout(x, overread);
    FixedTypeInt32Value | (((overread as Word << 32) | x as Word) & FixedTypeInt32DataMask)
  }

  /** A double is stored as its own bits. */
  function FromFloat64(d: Word): (w: Word)
    ensures w == d
    ensures IsFloat64(w) ==> AsFloat64(w) == d
    ensures IsFloat64(w) <==> ExponentField(d) != 0x7FF
  {
    d
  }

  /** The string constructor asserts the length fits a short string and
      encodes it inline. */
  function FromString(s: seq<Byte>): (w: Word)
    requires |s| <= MaxSsoLen
    ensures IsSsoString(w) && AsStringSso(w) == s
    ensures SsoHeader(w, |s|)
  {
    SsoRoundTrip(s);
    MakeStringSso(s)
  }

  // Tests and accessors.

  predicate IsQnan(w: Word)
    ensures IsQnan(w) <==> Signature(w) == 0x7FF8
  {
    w & SignatureMask == FixedTypeQnanValue
  }

  function AsQnan(w: Word): (d: Word)
    requires IsQnan(w)
    ensures IsNaN(d) && d == w
  {
    w
  }

  predicate IsBoolean(w: Word)
    ensures IsBoolean(w) <==> Signature(w) == 0x7FF9 || Signature(w) == 0x7FFA
  {
    w & SignatureMask == FixedTypeFalseValue || w & SignatureMask == FixedTypeTrueValue
  }

  /** True exactly when bit 48, the bit that tells `false` (tag 001) from
      `true` (tag 010), is clear. */
  function AsBoolean(w: Word): (b: bool)
    requires IsBoolean(w)
    ensures b <==> w & SignatureMask == FixedTypeTrueValue
  {
    w & FixedTypeFalseMask == 0
  }

  predicate IsNothing(w: Word)
    ensures IsNothing(w) <==> Signature(w) == 0x7FFB
  {
    w & SignatureMask == FixedTypeNullValue
  }

  predicate IsInt32(w: Word)
    ensures IsInt32(w) <==> Signature(w) == 0x7FFC
  {
    w & SignatureMask == FixedTypeInt32Value
  }

  /** The low 32 bits, read back as a two's complement int32. */
  function AsInt32(w: Word): (x: bv32)
    requires IsInt32(w)
    ensures x as Word == w & 0xFFFF_FFFF
  {
    (w & FixedTypeInt32DataMask) as bv32
  }

  /** A float is any word whose exponent is not all ones, whatever its sign
      and mantissa: every NaN-shaped word, and both infinities, fail. */
  predicate IsFloat64(w: Word)
    ensures IsFloat64(w) <==> ExponentField(w) != 0x7FF
  {
    w & !SignMask & !0xF_FFFF_FFFF_FFFF != NanExponentMask
  }

  function AsFloat64(w: Word): (d: Word)
    requires IsFloat64(w)
    ensures ExponentField(d) != 0x7FF && d == w
  {
    w
  }

  /** `std::isnan` on the bit pattern: exponent all ones, mantissa nonzero. */
  predicate IsNaN(w: Word)
    ensures IsNaN(w) ==> !IsFloat64(w)
  {
    ExponentField(w) == 0x7FF && w & 0xF_FFFF_FFFF_FFFF != 0
  }

  /** Heap references: the top sixteen bits equal the heap signature. */
  predicate IsHeap(w: Word)
    ensures IsHeap(w) <==> Signature(w) == 0xFFF8
  {
    w & SignatureMask & !HeapTypeDataMask == HeapTypeValue
  }

  /** Sign, exponent and quiet bit all set: the bits a heap reference's
      pointer is recognised by. The tag bits are not among them. */
  predicate HeapShaped(w: Word)
  {
    SignBit(w) == 1 && ExponentField(w) == 0x7FF && QuietBit(w) == 1
  }

  lemma HeapShapedMask(w: Word)
    ensures HeapShaped(w) <==> w & HeapTypeValue == HeapTypeValue
  {
  }

  /** The address a word points to: its low 48 bits when the word is heap
      shaped, and null otherwise. */
  function GetHeapPtr(w: Word): (p: Address)
    ensures p == if HeapShaped(w) then Pointer(PayloadField(w)) else NullAddress
  {
    HeapShapedMask(w);
    if w & HeapTypeValue == HeapTypeValue then Pointer(w & HeapTypeDataMask) else NullAddress
  }

  /** The word an allocated heap object is referenced by. */
  function HeapWord(p: Address): (w: Word)
    ensures HeapShaped(w) && PayloadField(w) == p.bits
    ensures GetHeapPtr(w) == p
  {
    HeapWordShape(p);
    HeapTypeValue | p.bits
  }

  lemma HeapWordShape(p: Address)
    ensures HeapShaped(HeapTypeValue | p.bits)
    ensures PayloadField(HeapTypeValue | p.bits) == p.bits
  {
    HeapWordLayout(p);
  }

  lemma Int32Layout(x: bv32, overread: bv32)
    ensures FixedTypeInt32Value | (((overread as Word << 32) | x as Word) & FixedTypeInt32DataMask)
            == FixedTypeInt32Value | x as Word
    ensures Signature(FixedTypeInt32Value | x as Word) == 0x7FFC
    ensures (FixedTypeInt32Value | x as Word) & FixedTypeInt32DataMask == x as Word
    ensures ((x as Word) as bv32) == x
  {
  }

  /** A heap reference is the heap signature in the top sixteen bits over
      the address in the low 48. */
  lemma HeapWordLayout(p: Address)
    ensures Signature(0xFFF8_0000_0000_0000 | p.bits) == 0xFFF8
    ensures (0xFFF8_0000_0000_0000 | p.bits) & 0xFFF8_0000_0000_0000 == 0xFFF8_0000_0000_0000
    ensures PayloadField(0xFFF8_0000_0000_0000 | p.bits) == p.bits
    ensures SignBit(0xFFF8_0000_0000_0000 | p.bits) == 1
    ensures ExponentField(0xFFF8_0000_0000_0000 | p.bits) == 0x7FF
    ensures QuietBit(0xFFF8_0000_0000_0000 | p.bits) == 1
    ensures HeapTypeValue == 0xFFF8_0000_0000_0000
  {
  }

  /** A heap reference passes the heap test, whatever its address. */
  lemma HeapWordIsHeap(p: Address)
    ensures IsHeap(HeapWord(p))
  {
    HeapWordLayout(p);
  }

  /** The signature is the fixed-kind prefix 0x7FF8 plus the tag exactly
      when sign, exponent and quiet bit are those of a fixed kind. */
  lemma SignatureSplit(w: Word)
    ensures TagField(w) <= 7
    ensures SignBit(w) == 0 && ExponentField(w) == 0x7FF && QuietBit(w) == 1 <==>
              Signature(w) == 0x7FF8 | TagField(w)
  {
  }

  // Relations between the tests.

  /** At most one of the five fixed-kind tests holds of any word: the four
      tagged kinds have distinct signatures, all with an all-ones exponent. */
  lemma FixedKindsExclusive(w: Word)
    ensures IsQnan(w) ==> !IsBoolean(w) && !IsNothing(w) && !IsInt32(w) && !IsFloat64(w)
    ensures IsBoolean(w) ==> !IsNothing(w) && !IsInt32(w) && !IsFloat64(w)
    ensures IsNothing(w) ==> !IsInt32(w) && !IsFloat64(w)
    ensures IsInt32(w) ==> !IsFloat64(w)
    ensures IsHeap(w) ==> !IsQnan(w) && !IsBoolean(w) && !IsNothing(w) && !IsInt32(w) && !IsFloat64(w)
  {
  }

  /** The short-string test reads only bits 48..50: two words with the same
      tag agree on it, whatever their other bits. */
  lemma SsoTestReadsOnlyTag(w1: Word, w2: Word)
    requires TagField(w1) == TagField(w2)
    ensures IsSsoString(w1) <==> IsSsoString(w2)
  {
  }

  /** Consequently any float whose tag bits are 101, 110 or 111 also passes
      the short-string test. */
  lemma FloatsCanLookLikeShortStrings(w: Word)
    requires ExponentField(w) != 0x7FF && TagField(w) >= 5
    ensures IsFloat64(w) && IsSsoString(w)
  {
  }

  /** The double 123.456 (bits 0x405EDD2F1A9FBE77, tag 110) is such a word. */
  lemma FloatExampleLooksLikeShortString()
    ensures IsFloat64(FromFloat64(0x405E_DD2F_1A9F_BE77))
    ensures IsSsoString(FromFloat64(0x405E_DD2F_1A9F_BE77))
    ensures AsStringSso(FromFloat64(0x405E_DD2F_1A9F_BE77)) == []
  {
  }

  /** Every constructed tagged value fails the float test and the heap test,
      and the qnan, nothing, boolean and int32 values fail the short-string
      test. */
  lemma TaggedValuesAreNotFloats(b: bool, x: bv32, overread: bv32, s: seq<Byte>)
    requires |s| <= MaxSsoLen
    ensures !IsFloat64(MakeQnan()) && !IsFloat64(MakeNothing())
    ensures !IsFloat64(FromBool(b)) && !IsFloat64(FromInt32(x, overread))
    ensures !IsFloat64(FromString(s))
    ensures !IsSsoString(MakeQnan()) && !IsSsoString(MakeNothing())
    ensures !IsSsoString(FromBool(b)) && !IsSsoString(FromInt32(x, overread))
    ensures !IsHeap(MakeQnan()) && !IsHeap(MakeNothing()) && !IsHeap(FromBool(b))
    ensures !IsHeap(FromInt32(x, overread)) && !IsHeap(FromString(s))
  {
  }

  /** A short string passes none of the other fixed-kind tests. */
  lemma ShortStringsAreOnlyStrings(s: seq<Byte>)
    requires |s| <= MaxSsoLen
    ensures !IsQnan(FromString(s)) && !IsBoolean(FromString(s))
    ensures !IsNothing(FromString(s)) && !IsInt32(FromString(s))
  {
  }

  const PositiveInfinity: Word := 0x7FF0_0000_0000_0000
  const NegativeInfinity: Word := 0xFFF0_0000_0000_0000

  /** Both infinities have an all-ones exponent and a zero mantissa: they
      fail the float test and every other inline test. */
  lemma InfinitiesAreNoKind()
    ensures !IsFloat64(PositiveInfinity) && !IsFloat64(NegativeInfinity)
    ensures !IsNaN(PositiveInfinity) && !IsNaN(NegativeInfinity)
    ensures !IsQnan(PositiveInfinity) && !IsQnan(NegativeInfinity)
    ensures !IsBoolean(PositiveInfinity) && !IsBoolean(NegativeInfinity)
    ensures !IsNothing(PositiveInfinity) && !IsNothing(NegativeInfinity)
    ensures !IsInt32(PositiveInfinity) && !IsInt32(NegativeInfinity)
    ensures !IsSsoString(PositiveInfinity) && !IsSsoString(NegativeInfinity)
    ensures !IsHeap(PositiveInfinity) && !IsHeap(NegativeInfinity)
  {
  }

  /** The int32 constructor does not depend on the bytes read past the
      argument. */
  lemma Int32IgnoresOverread(x: bv32, o1: bv32, o2: bv32)
    ensures FromInt32(x, o1) == FromInt32(x, o2)
  {
  }

  /** The int32 round trip in the other direction: an int32 word is rebuilt
      from its value exactly when bits 32..47 are clear. */
  lemma Int32Reconstruct(w: Word, overread: bv32)
    requires IsInt32(w)
    ensures FromInt32(AsInt32(w), overread) == w <==> w & 0xFFFF_0000_0000 == 0
  {
  }

  /** The boolean round trip in the other direction: a boolean word is
      rebuilt from its value exactly when its payload is empty. */
  lemma BooleanReconstruct(w: Word)
    requires IsBoolean(w)
    ensures FromBool(AsBoolean(w)) == w <==> PayloadField(w) == 0
  {
  }
}
