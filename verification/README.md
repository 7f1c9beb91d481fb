# nanbox in Dafny

A model of the core of the `anb` header-only library: a 64-bit NaN-boxed
value (`anb::object`) and the heap objects it can refer to. The model covers:

- The **bit layout** (`detail/nanbox.hpp`, `detail/util.hpp`). It has the sign,
  exponent, quiet and tag masks, the seven fixed-kind signatures (qnan, false,
  true, null, int32, packed and non-packed short string) and the heap
  signature. Each is a `bv64` constant, and lemmas prove the constants are the
  `lshift` and `|`/`&` compositions the header writes.
- The **inline kinds** (`object.hpp`). These are the constructors, the `is_*`
  tests and `as_*` accessors, and the short-string (SSO) codec: a packed form
  for six bytes and a non-packed form with a length byte for 0 to 5 bytes. A
  double is its 64-bit pattern; no floating-point arithmetic is modelled.
- **Heap references** (`object.hpp`). `alloc_heap`, `dealloc_heap`,
  `get_heap_ptr`, `is_heap` and the three kind tests work on an explicit
  allocator record. The record holds the live objects by address and the
  `type_lookup` side table.
- The **heap payloads** (`string.hpp`, `list.hpp`, `dictionary.hpp`): a byte
  string, a list of words, and an unordered map whose key equality is equality
  of the keys' `hash()`.
- **Hashing and equality** (`object.hpp`). `hash()` dispatches on the kind, and
  `==` is equality of hashes. The standard library's hash functions are a
  parameter.

Modules follow the source files:

| module | file | models |
|---|---|---|
| `Util` | `util.dfy` | `lshift`, `magic_hash` |
| `NanBox` | `nanbox.dfy` | the layout constants |
| `Sso` | `sso.dfy` | the short-string codec |
| `Object` | `object.dfy` | inline constructors, tests and accessors; `get_heap_ptr`; `is_heap` |
| `HeapObject` | `heap_object.dfy` | `heap_object_type`; 48-bit addresses |
| `HeapString`, `HeapList`, `HeapDictionary` | `string.dfy`, `list.dfy`, `dictionary.dfy` | the payloads |
| `Allocator` | `allocator.dfy` | the allocator record |
| `HeapRef` | `heap_ref.dfy` | alloc, dealloc, kind tests, `as_string_heap`/`as_list`/`as_dictionary` |
| `Hashing` | `hashing.dfy` | `hash`, `fixed_hash`, `heap_hash`, `==`, `!=` |

Behaviours of the code that the model keeps on purpose:

- `is_sso_string` tests only the tag bits 48..50. A double such as 123.456
  (bits `0x405EDD2F1A9FBE77`) therefore passes it as well as `is_float64`.
- `get_heap_ptr`, and with it the three kind tests, look only at the sign,
  exponent and quiet bits. `is_heap`, which dereferencing asserts, also
  requires tag 000.
- `dealloc_heap<K>` never compares `K` with the recorded kind.
- After `dealloc_heap` the word is the bare heap signature. That word passes
  `is_heap` but carries a null pointer. `hash()` on it goes to `heap_hash`,
  whose first step passes the `deref_heap_obj` check and reads the allocator
  handle through address 0 (`object.hpp` lines 418 and 440-441), before any
  kind test and before `unreachable`. The model makes that word unhashable.
- `is_float64` fails for both infinities. `fixed_hash` then has no case for
  them, so `hash` carries a precondition (`Hashable`).
- The int32 constructor reads 8 bytes starting at a 4-byte argument. The model
  takes the 4 bytes past the argument as a parameter (`overread`), assuming a
  little-endian layout. The int32 data mask discards them, and
  `Int32IgnoresOverread` proves that they never matter.
- `dictionary::set` goes through `unordered_map::insert`. For a key that is
  already present (hash-equal), the first value is kept and later ones are
  dropped.
- The non-packed decoder reads a whole byte as the length. A length byte above
  5 decodes to the empty string, as the code's `default` branch does.

## Model

| member | source | states |
|---|---|---|
| Util.LshiftClearsLowBits | include/anb/detail/util.hpp:9-11 | `lshift(v, a)` is a 64-bit left shift, so its `a` low bits are zero |
| Util.LshiftTopSixteen | include/anb/detail/util.hpp:9-11 | a 16-bit value shifted by 48 sets only bits 48..63 and shifts back unchanged |
| Util.LshiftDiscardsOverflow | include/anb/detail/util.hpp:9-11 | bits shifted past bit 63 are lost: shifting by 48 or 63 depends only on the low 16 or 1 bits |
| Util.XorShift | include/anb/detail/util.hpp:36-38 | each `x ^ (x >> k)` round of the mixer leaves the top k bits of x unchanged |
| Util.MagicHash | include/anb/detail/util.hpp:35-40 | the avalanche mixer with wrapping 64-bit multiplications is total, and maps 0 to 0 |
| NanBox.MasksAreShifts | include/anb/detail/nanbox.hpp:19-84 | the sign, exponent, quiet, tag and signature masks are the `lshift` values the header defines them as |
| NanBox.SignaturesAreComposed | include/anb/detail/nanbox.hpp:113-143 | each fixed signature is exponent, quiet bit and tag with the sign cleared; the heap signature is sign, exponent and quiet bit |
| NanBox.FixedSignatureLayout | include/anb/detail/nanbox.hpp:113-137 | the seven fixed signatures have sign 0, exponent all ones, quiet bit 1, tags 0..6 in table order, and an empty payload |
| NanBox.FixedSignaturesDistinct | include/anb/detail/nanbox.hpp:113-137 | the seven fixed signatures are pairwise distinct |
| NanBox.SnanIsQnan | include/anb/detail/nanbox.hpp:113-117 | the signalling-NaN signature is bit-identical to the quiet one |
| NanBox.HeapSignatureLayout | include/anb/detail/nanbox.hpp:142-143 | the heap signature has sign 1, exponent all ones, quiet 1, tag 000, empty payload, and is none of the fixed signatures |
| NanBox.DataRegions | include/anb/detail/nanbox.hpp:56-88 | both 48-bit data masks are the low 48 bits, disjoint from the signature mask and covering the word with it; the int32 mask lies inside |
| NanBox.SignaturesInsideSignatureMask | include/anb/detail/nanbox.hpp:113-145 | ANDing any fixed or heap signature with the signature mask leaves it unchanged |
| Sso.ToSsoNbVal | include/anb/object.hpp:293-298 | a byte shifted into place at a slot offset is read back unchanged by `to_sso_char` at that offset |
| Sso.AsStringPackedSso | include/anb/object.hpp:359-363 | the packed decoder always yields six bytes |
| Sso.AsStringNonpackedSso | include/anb/object.hpp:365-409 | the non-packed decoder yields as many bytes as the length byte says when it is at most 5, and nothing otherwise |
| Sso.IsSsoString | include/anb/object.hpp:185-190 | the short-string test holds exactly when the tag bits are 101, 110 or 111 |
| Sso.AsStringSso | include/anb/object.hpp:192-212 | the short-string decoder takes the packed path (six bytes) for tags 101 and 111, and for tag 110 yields as many bytes as the length byte says when it is at most 5, and nothing otherwise |
| Sso.DecodedCharAt | include/anb/object.hpp:359-409 | byte i of a decoded string of length n is read from slot i (packed) or slot 5-n+i (non-packed) |
| Sso.SsoRoundTrip | include/anb/object.hpp:300-409 | `make_string_sso` and `as_string_sso` are inverse: every byte string of length 0..6, high-bit bytes included, encodes to a short-string word that decodes back to it, with sign 0, exponent all ones, quiet 1, tag 101 or 110 and, for 0..5 bytes, the length in bits 40..47 |
| Sso.SsoLayout | include/anb/object.hpp:300-357 | the encoded word has that header and holds byte i at bit offset 8i (packed) or 8(5-n+i) (non-packed), where `to_sso_char` reads it back |
| Object.MakeDefault | include/anb/object.hpp:28 | the default value is the double 0.0: a float, not nothing |
| Object.MakeQnan | include/anb/object.hpp:30-35 | `make_qnan` passes `is_qnan` and is a NaN |
| Object.MakeNothing | include/anb/object.hpp:37-42 | `make_nothing` passes `is_nothing`, with tag 011 and an empty payload |
| Object.FromBool | include/anb/object.hpp:44-48 | the boolean constructor passes `is_boolean` and `as_boolean` gives the argument back |
| Object.FromInt32 | include/anb/object.hpp:50-57 | the int32 constructor passes `is_int32`, `as_int32` gives the same 32 bits back, and the bytes read past the argument are masked off |
| Object.FromFloat64 | include/anb/object.hpp:59 | a double is stored bit for bit, NaN patterns included; it passes `is_float64` exactly when its exponent is not all ones, and then `as_float64` gives it back |
| Object.FromString | include/anb/object.hpp:61-65 | the string constructor, given at most six bytes, passes `is_sso_string` and `as_string_sso` gives the string back |
| Object.IsQnan | include/anb/object.hpp:134-137 | the qnan test compares the top 16 bits with 0x7FF8 |
| Object.AsQnan | include/anb/object.hpp:139-142 | `as_qnan`, defined only on qnan words, returns the word, which is a NaN |
| Object.IsBoolean | include/anb/object.hpp:144-149 | the boolean test compares the top 16 bits with 0x7FF9 or 0x7FFA |
| Object.AsBoolean | include/anb/object.hpp:151-154 | on a boolean word the result is true exactly for the `true` signature |
| Object.IsNothing | include/anb/object.hpp:156-159 | the nothing test compares the top 16 bits with 0x7FFB |
| Object.IsInt32 | include/anb/object.hpp:161-164 | the int32 test compares the top 16 bits with 0x7FFC |
| Object.AsInt32 | include/anb/object.hpp:166-171 | `as_int32` returns the low 32 bits of the word |
| Object.IsFloat64 | include/anb/object.hpp:173-178 | the float test holds exactly when the exponent bits 52..62 are not all ones |
| Object.AsFloat64 | include/anb/object.hpp:180-183 | `as_float64`, defined only on floats, returns the word |
| Object.IsNaN | test/test_qnan.cpp:13 | a word `std::isnan` accepts (exponent all ones, mantissa nonzero) never passes the float test |
| Object.IsHeap | include/anb/object.hpp:286-291 | the heap test holds exactly when the top 16 bits are 0xFFF8 |
| Object.GetHeapPtr | include/anb/object.hpp:95-105 | the pointer is the low 48 bits when sign, exponent and quiet bit are all set, whatever the tag, and null otherwise |
| Object.HeapWord | include/anb/object.hpp:74-76 | the word `alloc_heap` returns has sign, exponent and quiet bit set, the address as payload, and `get_heap_ptr` recovers the address |
| Object.HeapWordIsHeap | include/anb/object.hpp:74-76 | that word passes the heap test for every address |
| Object.FixedKindsExclusive | include/anb/object.hpp:134-178 | at most one of the qnan, boolean, nothing, int32 and float tests holds of any word, and none of them of a heap word |
| Object.SsoTestReadsOnlyTag | include/anb/object.hpp:185-190 | two words with the same tag bits agree on the short-string test |
| Object.FloatsCanLookLikeShortStrings | include/anb/object.hpp:173-190 | a float whose tag bits are 101, 110 or 111 also passes the short-string test |
| Object.FloatExampleLooksLikeShortString | include/anb/object.hpp:185-190 | the double 123.456 passes both the float and the short-string test, and decodes to the empty string |
| Object.TaggedValuesAreNotFloats | include/anb/object.hpp:30-65 | every constructed qnan, nothing, boolean, int32 and short-string value fails the float and heap tests; all but the strings fail the short-string test |
| Object.ShortStringsAreOnlyStrings | include/anb/object.hpp:134-164 | a constructed short string fails the qnan, boolean, nothing and int32 tests |
| Object.InfinitiesAreNoKind | include/anb/object.hpp:173-178 | both infinities fail the float test and every other inline test |
| Object.Int32IgnoresOverread | include/anb/object.hpp:50-57 | the int32 constructor does not depend on the bytes read past its argument |
| Object.Int32Reconstruct | include/anb/object.hpp:50-57 | rebuilding an int32 word from `as_int32` gives it back exactly when bits 32..47 are clear |
| Object.BooleanReconstruct | include/anb/object.hpp:44-48 | rebuilding a boolean word from `as_boolean` gives it back exactly when its payload is empty |
| HeapString.SetOwnView | include/anb/string.hpp:13 | `view()` exposes the whole content: setting a string to its own view changes nothing |
| HeapString.Set | include/anb/string.hpp:15 | after `set(s)`, `view()` is s |
| HeapString.Reset | include/anb/string.hpp:17 | after `reset()`, `view()` is empty |
| HeapString.ResetTo | include/anb/string.hpp:19 | after `reset(s)`, `view()` is s |
| HeapString.SetReplacesContent | include/anb/string.hpp:15 | `set` forgets the previous content entirely |
| HeapString.ResetToIsSet | include/anb/string.hpp:17-19 | `reset(s)` is `set(s)`, and `reset()` is `set("")` |
| HeapString.TypeIsString | include/anb/string.hpp:21 | a string's `type()` is string |
| HeapList.Set | include/anb/list.hpp:17-21 | `set` appends the arguments after the existing elements, in argument order |
| HeapList.Reset | include/anb/list.hpp:23 | `reset()` empties the list |
| HeapList.ResetTo | include/anb/list.hpp:25-29 | `reset(args)` leaves exactly the arguments, in order |
| HeapList.SetAppendsInOrder | include/anb/list.hpp:17-21 | existing elements keep their positions and argument i lands at position size+i |
| HeapList.SetTwice | include/anb/list.hpp:17-21 | two `set` calls append the same as one with both argument lists |
| HeapList.TypeIsList | include/anb/list.hpp:31 | a list's `type()` is list |
| HeapDictionary.Insert | include/anb/dictionary.hpp:24-27 | one `insert` adds the pair when its key is new, and otherwise changes nothing |
| HeapDictionary.Set | include/anb/dictionary.hpp:24-27 | `set` keeps every existing entry, adds one entry per new key hash, and that entry is the first pair in the argument list with that key |
| HeapDictionary.SetStep | include/anb/dictionary.hpp:24-27 | inserting the head and then the tail meets what `set` promises for the whole list |
| HeapDictionary.Reset | include/anb/dictionary.hpp:30 | `reset()` empties the dictionary |
| HeapDictionary.ResetTo | include/anb/dictionary.hpp:32-38 | `reset(pairs)` holds exactly one entry per distinct key, the first pair given for it |
| HeapDictionary.SetFreshKey | include/anb/dictionary.hpp:24-27 | a pair with a new key adds exactly one entry, and looking up the key yields its value |
| HeapDictionary.SetPresentKey | include/anb/dictionary.hpp:24-27 | a pair whose key is already present leaves the dictionary unchanged |
| HeapDictionary.FirstValueWins | include/anb/dictionary.hpp:24-27 | of two pairs with equal keys the first value is kept and only one entry is added |
| HeapDictionary.FirstOfKeyExists | include/anb/dictionary.hpp:24-27 | every key hash of the argument list has a first pair carrying it |
| HeapDictionary.SetPreservesWellKeyed | include/anb/dictionary.hpp:24-27 | after `set`, every entry still sits under its own key's hash |
| HeapDictionary.ResetToForgets | include/anb/dictionary.hpp:32-38 | `reset(pairs)` is `reset()` then `set(pairs)`, whatever the previous content |
| HeapDictionary.Lookup | test/test_dictionary.cpp:20-23 | looking a key up finds a value exactly when an entry sits under the key's hash, and the value found is that entry's value |
| HeapDictionary.TypeIsDictionary | include/anb/dictionary.hpp:40 | a dictionary's `type()` is dictionary |
| Allocator.Fresh | include/anb/object.hpp:71-72 | the object `alloc<K>()` makes reports kind K as its `type()` and starts empty: an empty string, list or dictionary |
| Allocator.Alloc | include/anb/object.hpp:71 | allocation adds exactly the new address, holding an object of the requested kind, and keeps every other object |
| Allocator.Dealloc | include/anb/object.hpp:87 | deallocation removes exactly the given address and keeps every other object |
| Allocator.Update | include/anb/object.hpp:224-261 | writing an object of the same kind through a reference keeps the allocator valid and changes only that object |
| HeapRef.Deref | include/anb/object.hpp:411-423 | dereferencing a heap word (heap test passed) yields the object at its address, of the recorded kind |
| HeapRef.AsStringHeap | include/anb/object.hpp:224-229 | `as_string_heap` yields the string stored at the word's address |
| HeapRef.AsList | include/anb/object.hpp:241-245 | `as_list` yields the list stored at the word's address |
| HeapRef.AsDictionary | include/anb/object.hpp:257-261 | `as_dictionary` yields the dictionary stored at the word's address |
| HeapRef.AllocHeap | include/anb/object.hpp:67-77 | `alloc_heap<K>` returns exactly the heap signature OR-ed with the address, records K for the address, adds exactly a fresh empty object of kind K there and keeps every other object, and keeps the allocator valid |
| HeapRef.IsKind | include/anb/object.hpp:214-255 | a kind test passes only for a heap-shaped word, and with a valid allocator the object at its address has that kind |
| HeapRef.IsHeapString | include/anb/object.hpp:214-222 | a word that passes `is_heap_string` fails the list and dictionary tests |
| HeapRef.IsList | include/anb/object.hpp:231-239 | a word that passes `is_list` fails the string and dictionary tests |
| HeapRef.IsDictionary | include/anb/object.hpp:247-255 | a word that passes `is_dictionary` fails the string and list tests |
| HeapRef.DeallocHeapAs | include/anb/object.hpp:79-93 | `dealloc_heap<K>` on a non-null pointer erases its side-table entry and object and resets the word to the heap signature; on a null pointer it does nothing; it keeps the allocator valid |
| HeapRef.DeallocHeap | include/anb/object.hpp:107-115 | the member `dealloc_heap` deallocates as the recorded kind when the pointer is recorded, and does nothing otherwise |
| HeapRef.Store | include/anb/object.hpp:224-261 | a mutation through an `as_*` reference replaces only that object and keeps the side table |
| HeapRef.AllocHeapHasExactlyItsKind | include/anb/object.hpp:67-77 | after `alloc_heap<K>` the word passes the heap test, and of the three kind tests exactly the one for K holds |
| HeapRef.DeallocIgnoresKind | include/anb/object.hpp:79-93 | the result of `dealloc_heap<K>` does not depend on K |
| HeapRef.DeallocatedWordIsNull | include/anb/object.hpp:90-91 | the bare heap signature passes the heap test, has a null pointer, passes no kind test, and deallocating it again is a no-op |
| HeapRef.AllocThenDealloc | include/anb/object.hpp:67-93 | allocating then deallocating, as any kind, restores the allocator, after which no kind test holds and a second deallocation is a no-op |
| HeapRef.HeapWordsAreNotInline | include/anb/object.hpp:134-190 | a heap reference fails every inline test, the short-string test included |
| HeapRef.KindTestsIgnoreTag | include/anb/object.hpp:214-222 | setting tag 101 on a heap string's word keeps `is_heap_string` true, makes `is_sso_string` true and `is_heap` false |
| HeapRef.StringHeapRoundTrip | include/anb/object.hpp:224-229 | setting a heap string through its reference and viewing it gives back the text |
| HeapRef.ListSetThroughReference | include/anb/object.hpp:241-245 | appending through a list reference appends to the stored list |
| Hashing.Hash | include/anb/object.hpp:271-276 | every case of the dispatch: qnan, nothing and floats hash as doubles, booleans and int32 as their values, an inline short string that is not a float as its content, and heap strings, lists and dictionaries as `heap_hash` does |
| Hashing.FixedHash | include/anb/object.hpp:425-437 | `fixed_hash` hashes qnan, nothing and float words as doubles, a boolean and an int32 as their values, and a short string that is not a float as its content |
| Hashing.HeapHash | include/anb/object.hpp:439-451 | `heap_hash` hashes a heap string as its content, a list and a dictionary with their own hashers applied to the object |
| Hashing.Equal | include/anb/object.hpp:460-464 | every hashable word is `==` to itself |
| Hashing.NotEqual | include/anb/object.hpp:466-470 | `!=` holds exactly when the hashes differ |
| Hashing.KeyHash | include/anb/object.hpp:474-479 | the dictionary's key hasher is `hash()` on every hashable key |
| Hashing.FixedHashableExactly | include/anb/object.hpp:425-437 | `fixed_hash` has a case for an inline word exactly when its exponent is not all ones, or its tag is 101..111, or it has sign 0 and the quiet bit |
| Hashing.InfinitiesCannotBeHashed | include/anb/object.hpp:425-437 | neither infinity can be hashed |
| Hashing.DeallocatedWordCannotBeHashed | include/anb/object.hpp:271-276 | the word left by `dealloc_heap` passes the heap test but cannot be hashed |
| Hashing.HashOfInlineValues | include/anb/object.hpp:425-437 | qnan and nothing hash as doubles, booleans and int32 values as their values |
| Hashing.HashOfShortString | include/anb/object.hpp:432-433 | a short string hashes as its content |
| Hashing.HashOfFloat | include/anb/object.hpp:426-427 | a float hashes as a double, even when it passes the short-string test |
| Hashing.HashOfHeapString | include/anb/object.hpp:442-443 | a heap string hashes as its content |
| Hashing.EqualStringsByContent | include/anb/object.hpp:460-464 | a short string and heap strings with the same content are all equal |
| Hashing.EqualInt32 | include/anb/object.hpp:460-464 | with an injective int32 hash, two int32 values are equal exactly when their values are |
| Hashing.TrueNotEqualFalse | include/anb/object.hpp:466-470 | with distinct boolean hashes, `true != false` |
| Hashing.EqualIsEquivalence | include/anb/object.hpp:460-470 | `==` is reflexive, symmetric and transitive, and `!=` is its negation |
| Hashing.KeyHashIsEquality | include/anb/object.hpp:474-479 | the dictionary's key hash agrees on two keys exactly when they are `==` |
| Hashing.EqualKeyIsDropped | include/anb/dictionary.hpp:24-27 | a pair whose key is `==` to a present key is dropped, and both keys find the first value |

## Left out

- Floating point: doubles are bit patterns. `std::isnan` is the exponent and
  mantissa test (`Object.IsNaN`).
- The standard hash functions for doubles, booleans, int32 and strings, and
  the list and dictionary hash specialisations: their results are not
  defined by the code shown. They are fields of a `Hashers` parameter, so
  `heap_hash` is modelled only up to which of them it calls.
- Raw pointer reinterpretation, `new`/`delete` and object lifetimes. The
  object a heap word points to is looked up in the allocator record, and the
  allocator is passed explicitly rather than reached through
  `allocator_handle`. The address `alloc<K>()` picks is a parameter, required
  to be non-null, unused and below 2^48.
- The test allocator and the assignment test. The test allocator is a mock
  without the `type_lookup` member the object uses; the assignment test calls
  a member the object does not define.
- `ANB_ASSERT` and `unreachable`. They become `requires` clauses (on the
  `as_*` accessors, `deref_heap_obj` and `hash`), or `assert false` where a
  branch cannot be reached.
- `nanbox_value()`: it only exposes the word, which is the model's value
  itself.
- The virtual destructor and the `allocator_handle` back reference of
  `heap_object`: they have no modelled behaviour.
- Dictionary keys whose hash changes after insertion, and hashing of cyclic
  lists, are not modelled.
- Hashing.KeyHash: gives 0 to a key that cannot be hashed. The code has no
  defined behaviour for such a key.
- HeapRef.DeallocHeapAs: on a non-null pointer that is not recorded, it removes
  nothing. In the code that is a deallocation of memory never allocated.
- Util.MagicHash: states only totality and `magic_hash(0) == 0`. No
  injectivity or avalanche property is proved.
- Util.Lshift: stated through `LshiftClearsLowBits`, `LshiftTopSixteen` and
  `LshiftDiscardsOverflow` only. The behaviour of shifts by 64 or more is
  undefined and is excluded by a precondition.
