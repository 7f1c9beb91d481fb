/** Hashing and equality of boxed values (object.hpp): `hash()` dispatches
    on the kind, and `==` is equality of hashes. The standard hash functions
    are not specified by the language, so they are a parameter: a record of
    one function per hashed type. */
module Hashing {
  import opened Util
  import opened NanBox
  import opened HeapObject
  import opened Object
  import opened Sso
  import opened Allocator
  import opened HeapRef
  import HeapString
  import HeapList
  import HeapDictionary

  /** `std::hash` for doubles (given the bits), booleans, int32 and byte
      strings, and the list and dictionary hashes, which see the allocator. */
  datatype Hashers = Hashers(
    ofDouble: Word -> HashValue,
    ofBool: bool -> HashValue,
    ofInt32: bv32 -> HashValue,
    ofString: seq<Byte> -> HashValue,
    ofList: (Allocator, HeapList.List) -> HashValue,
    ofDict: (Allocator, HeapDictionary.Dict) -> HashValue)

  /** The inline words `fixed_hash` handles; on any other inline word it
      reaches `unreachable`. */
  predicate FixedHashable(w: Word)
  {
    IsQnan(w) || IsNothing(w) || IsFloat64(w) || IsBoolean(w) || IsInt32(w) || IsSsoString(w)
  }

  /** The heap words `heap_hash` handles: the word passes the heap test (so
      it can be dereferenced) and points to a recorded object. */
  predicate HeapHashable(a: Allocator, w: Word)
  {
    Valid(a) && IsHeap(w) && GetHeapPtr(w) != NullAddress && GetHeapPtr(w) in a.typeLookup
  }

  predicate Hashable(a: Allocator, w: Word)
  {
    if IsHeap(w) then HeapHashable(a, w) else FixedHashable(w)
  }

  /** Doubles, quiet NaNs and nothing hash as doubles, checked first; then
      booleans, int32 and short strings by their values. */
  function FixedHash(h: Hashers, w: Word): (r: HashValue)
    requires FixedHashable(w)
    ensures IsQnan(w) || IsNothing(w) || IsFloat64(w) ==> r == h.ofDouble(w)
    ensures IsBoolean(w) ==> r == h.ofBool(AsBoolean(w))
    ensures IsInt32(w) ==> r == h.ofInt32(AsInt32(w))
    ensures IsSsoString(w) && !IsFloat64(w) ==> r == h.ofString(AsStringSso(w))
  {
    FixedKindsExclusive(w);
    if IsQnan(w) || IsNothing(w) || IsFloat64(w) then h.ofDouble(w)
    else if IsBoolean(w) then h.ofBool(AsBoolean(w))
    else if IsInt32(w) then h.ofInt32(AsInt32(w))
    else h.ofString(AsStringSso(w))
  }

  /** A heap string hashes by its content; lists and dictionaries by their
      own hashes. */
  function HeapHash(h: Hashers, a: Allocator, w: Word): (r: HashValue)
    requires HeapHashable(a, w)
    ensures IsHeapString(w, a) ==> r == h.ofString(HeapString.View(AsStringHeap(w, a)))
    ensures IsList(w, a) ==> r == h.ofList(a, AsList(w, a))
    ensures IsDictionary(w, a) ==> r == h.ofDict(a, AsDictionary(w, a))
  {
    if IsHeapString(w, a) then h.ofString(HeapString.View(AsStringHeap(w, a)))
    else if IsList(w, a) then h.ofList(a, AsList(w, a))
    else h.ofDict(a, AsDictionary(w, a))
  }

  function Hash(h: Hashers, a: Allocator, w: Word): (r: HashValue)
    requires Hashable(a, w)
    ensures IsQnan(w) || IsNothing(w) || IsFloat64(w) ==> r == h.ofDouble(w)
    ensures IsBoolean(w) ==> r == h.ofBool(AsBoolean(w))
    ensures IsInt32(w) ==> r == h.ofInt32(AsInt32(w))
    ensures !IsHeap(w) && IsSsoString(w) && !IsFloat64(w) ==> r == h.ofString(AsStringSso(w))
    ensures IsHeap(w) && IsHeapString(w, a) ==> r == h.ofString(HeapString.View(AsStringHeap(w, a)))
    ensures IsHeap(w) && IsList(w, a) ==> r == h.ofList(a, AsList(w, a))
    ensures IsHeap(w) && IsDictionary(w, a) ==> r == h.ofDict(a, AsDictionary(w, a))
  {
    FixedKindsExclusive(w);
    if IsHeap(w) then HeapHash(h, a, w) else FixedHash(h, w)
  }

  /** `operator==`: the hashes are equal. */
  predicate Equal(h: Hashers, a: Allocator, x: Word, y: Word)
    requires Hashable(a, x) && Hashable(a, y)
    ensures x == y ==> Equal(h, a, x, y)
  {
    Hash(h, a, x) == Hash(h, a, y)
  }

  /** `operator!=`. */
  predicate NotEqual(h: Hashers, a: Allocator, x: Word, y: Word)
    requires Hashable(a, x) && Hashable(a, y)
    ensures NotEqual(h, a, x, y) <==> Hash(h, a, x) != Hash(h, a, y)
  {
    !Equal(h, a, x, y)
  }

  /** The key hash a dictionary of boxed values buckets and compares by. A
      key that cannot be hashed has no defined hash; it is given 0 here. */
  function KeyHash(h: Hashers, a: Allocator): (r: HeapDictionary.KeyHasher)
    ensures forall w :: Hashable(a, w) ==> r(w) == Hash(h, a, w)
  {
    w => if Hashable(a, w) then Hash(h, a, w) else HashValue(0)
  }

  // Which words can be hashed.

  /** An inline word can be hashed exactly when its exponent is not all
      ones, or its tag is a short-string tag, or it has sign 0 and the quiet
      bit (the qnan, boolean, nothing and int32 signatures). */
  lemma FixedHashableExactly(w: Word)
    ensures FixedHashable(w) <==>
              ExponentField(w) != 0x7FF || TagField(w) >= 5 || (SignBit(w) == 0 && QuietBit(w) == 1)
  {
    SignatureSplit(w);
    var t := TagField(w);
    if ExponentField(w) == 0x7FF && t < 5 {
      assert t == 0 || t == 1 || t == 2 || t == 3 || t == 4;
    }
  }

  /** Neither infinity can be hashed. */
  lemma InfinitiesCannotBeHashed(a: Allocator)
    ensures !Hashable(a, PositiveInfinity) && !Hashable(a, NegativeInfinity)
  {
    InfinitiesAreNoKind();
  }

  /** The word `dealloc_heap` leaves behind (whose bits are also those of
      the negative quiet NaN) passes the heap test but points nowhere, so it
      cannot be hashed. */
  lemma DeallocatedWordCannotBeHashed(a: Allocator)
    ensures IsHeap(HeapTypeValue) && !Hashable(a, HeapTypeValue)
  {
  }

  // Hashes of constructed values.

  lemma HashOfInlineValues(h: Hashers, a: Allocator, b: bool, x: bv32, overread: bv32)
    ensures Hashable(a, MakeQnan()) && Hash(h, a, MakeQnan()) == h.ofDouble(FixedTypeQnanValue)
    ensures Hashable(a, MakeNothing()) && Hash(h, a, MakeNothing()) == h.ofDouble(FixedTypeNullValue)
    ensures Hashable(a, FromBool(b)) && Hash(h, a, FromBool(b)) == h.ofBool(b)
    ensures Hashable(a, FromInt32(x, overread)) && Hash(h, a, FromInt32(x, overread)) == h.ofInt32(x)
  {
    TaggedValuesAreNotFloats(b, x, overread, []);
  }

  /** A short string hashes as its content. */
  lemma HashOfShortString(h: Hashers, a: Allocator, s: seq<Byte>)
    requires |s| <= MaxSsoLen
    ensures Hashable(a, FromString(s)) && Hash(h, a, FromString(s)) == h.ofString(s)
  {
    TaggedValuesAreNotFloats(false, 0, 0, s);
    ShortStringsAreOnlyStrings(s);
  }

  /** A double hashes as a double, even one whose tag bits make it look like
      a short string. */
  lemma HashOfFloat(h: Hashers, a: Allocator, d: Word)
    requires IsFloat64(d)
    ensures Hashable(a, FromFloat64(d)) && Hash(h, a, FromFloat64(d)) == h.ofDouble(d)
  {
    FixedKindsExclusive(d);
  }

  /** A heap string hashes as its content, wherever it lives. */
  lemma HashOfHeapString(h: Hashers, a: Allocator, w: Word)
    requires Valid(a) && IsHeap(w) && IsHeapString(w, a)
    ensures Hashable(a, w) && Hash(h, a, w) == h.ofString(HeapString.View(AsStringHeap(w, a)))
  {
  }

  /** So a short string and a heap string with the same content are equal,
      and so are two heap strings with the same content at different
      addresses. */
  lemma EqualStringsByContent(h: Hashers, a: Allocator, s: seq<Byte>, w1: Word, w2: Word)
    requires |s| <= MaxSsoLen
    requires Valid(a) && IsHeap(w1) && IsHeapString(w1, a) && IsHeap(w2) && IsHeapString(w2, a)
    requires HeapString.View(AsStringHeap(w1, a)) == s && HeapString.View(AsStringHeap(w2, a)) == s
    ensures Hashable(a, FromString(s)) && Hashable(a, w1) && Hashable(a, w2)
    ensures Equal(h, a, FromString(s), w1) && Equal(h, a, w1, w2)
  {
    HashOfShortString(h, a, s);
    HashOfHeapString(h, a, w1);
    HashOfHeapString(h, a, w2);
  }

  /** With an injective int32 hash, two int32 values are equal exactly when
      their values are. */
  lemma EqualInt32(h: Hashers, a: Allocator, x: bv32, y: bv32)
    requires forall u, v :: h.ofInt32(u) == h.ofInt32(v) ==> u == v
    ensures Hashable(a, FromInt32(x, 0)) && Hashable(a, FromInt32(y, 0))
    ensures Equal(h, a, FromInt32(x, 0), FromInt32(y, 0)) <==> x == y
  {
    HashOfInlineValues(h, a, false, x, 0);
    HashOfInlineValues(h, a, false, y, 0);
  }

  /** With an injective boolean hash, `true` and `false` differ. */
  lemma TrueNotEqualFalse(h: Hashers, a: Allocator)
    requires h.ofBool(true) != h.ofBool(false)
    ensures Hashable(a, FromBool(true)) && Hashable(a, FromBool(false))
    ensures NotEqual(h, a, FromBool(true), FromBool(false))
  {
    HashOfInlineValues(h, a, true, 0, 0);
    HashOfInlineValues(h, a, false, 0, 0);
  }

  // Equality.

  /** `==` is an equivalence on hashable words, and `!=` its negation. */
  lemma EqualIsEquivalence(h: Hashers, a: Allocator, x: Word, y: Word, z: Word)
    requires Hashable(a, x) && Hashable(a, y) && Hashable(a, z)
    ensures Equal(h, a, x, x)
    ensures Equal(h, a, x, y) ==> Equal(h, a, y, x)
    ensures Equal(h, a, x, y) && Equal(h, a, y, z) ==> Equal(h, a, x, z)
    ensures NotEqual(h, a, x, y) <==> !Equal(h, a, x, y)
  {
  }

  /** A dictionary of boxed values compares keys with `==`. */
  lemma KeyHashIsEquality(h: Hashers, a: Allocator, x: Word, y: Word)
    requires Hashable(a, x) && Hashable(a, y)
    ensures KeyHash(h, a)(x) == KeyHash(h, a)(y) <==> Equal(h, a, x, y)
  {
  }

  /** A pair whose key equals a key already in the dictionary is dropped,
      and the value found for either key is the first one. */
  lemma EqualKeyIsDropped(h: Hashers, a: Allocator, d: HeapDictionary.Dict, k1: Word, v1: Word, k2: Word, v2: Word)
    requires Hashable(a, k1) && Hashable(a, k2) && Equal(h, a, k1, k2)
    ensures var d1 := HeapDictionary.Set(d, [(k1, v1)], KeyHash(h, a));
            && HeapDictionary.Set(d1, [(k2, v2)], KeyHash(h, a)) == d1
            && HeapDictionary.Lookup(d1, k2, KeyHash(h, a)) == HeapDictionary.Lookup(d1, k1, KeyHash(h, a))
  {
    var d1 := HeapDictionary.Set(d, [(k1, v1)], KeyHash(h, a));
    HeapDictionary.KeyHashesSingle(k1, v1, KeyHash(h, a));
    HeapDictionary.SetPresentKey(d1, k2, v2, KeyHash(h, a));
  }
}
