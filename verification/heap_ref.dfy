/** Heap references (object.hpp): allocating and deallocating heap objects
    through the allocator record, the three kind tests that consult its side
    table, and the accessors that reach the object a word points to. */
module HeapRef {
  import opened Util
  import opened NanBox
  import opened HeapObject
  import opened Object
  import opened Allocator
  import opened Sso
  import HeapString
  import HeapList
  import HeapDictionary

  /** A word together with the allocator state it lives in: what an
      operation that changes both returns. */
  datatype Boxed = Boxed(obj: Word, alloc: Allocator)

  /** The shared shape of `is_heap_string`, `is_list` and `is_dictionary`:
      the word's pointer is non-null and the side table records kind `k` for
      it. */
  predicate IsKind(w: Word, a: Allocator, k: HeapObjectType)
    ensures IsKind(w, a, k) ==> HeapShaped(w)
    ensures Valid(a) && IsKind(w, a, k) ==> GetHeapPtr(w) in a.store && TypeOf(a.store[GetHeapPtr(w)]) == k
  {
    var p := GetHeapPtr(w);
    p != NullAddress && p in a.typeLookup && a.typeLookup[p] == k
  }

  /** `is_heap_string`, `is_list` and `is_dictionary`: at most one of them
      holds of a word, since the side table records one kind per address. */
  predicate IsHeapString(w: Word, a: Allocator)
    ensures IsHeapString(w, a) ==> !IsKind(w, a, ListType) && !IsKind(w, a, DictionaryType)
  {
    IsKind(w, a, StringType)
  }

  predicate IsList(w: Word, a: Allocator)
    ensures IsList(w, a) ==> !IsKind(w, a, StringType) && !IsKind(w, a, DictionaryType)
  {
    IsKind(w, a, ListType)
  }

  predicate IsDictionary(w: Word, a: Allocator)
    ensures IsDictionary(w, a) ==> !IsKind(w, a, StringType) && !IsKind(w, a, ListType)
  {
    IsKind(w, a, DictionaryType)
  }

  /** Dereferencing a heap word: it must pass the heap test (tag bits 000),
      and, with a valid allocator, the recorded kind is the object's kind. */
  function Deref(w: Word, a: Allocator, k: HeapObjectType): (o: HeapObj)
    requires Valid(a) && IsHeap(w) && IsKind(w, a, k)
    ensures TypeOf(o) == k && o == a.store[GetHeapPtr(w)]
  {
    a.store[GetHeapPtr(w)]
  }

  function AsStringHeap(w: Word, a: Allocator): (s: HeapString.Str)
    requires Valid(a) && IsHeap(w) && IsHeapString(w, a)
    ensures StringObj(s) == a.store[GetHeapPtr(w)]
  {
    Deref(w, a, StringType).str
  }

  function AsList(w: Word, a: Allocator): (l: HeapList.List)
    requires Valid(a) && IsHeap(w) && IsList(w, a)
    ensures ListObj(l) == a.store[GetHeapPtr(w)]
  {
    Deref(w, a, ListType).list
  }

  function AsDictionary(w: Word, a: Allocator): (d: HeapDictionary.Dict)
    requires Valid(a) && IsHeap(w) && IsDictionary(w, a)
    ensures DictObj(d) == a.store[GetHeapPtr(w)]
  {
    Deref(w, a, DictionaryType).dict
  }

  /** `alloc_heap<K>`: allocates a fresh object of kind K at `p`, records
      the object's own `type()` for `p`, and returns the heap signature
      over the address. */
  function AllocHeap(a: Allocator, k: HeapObjectType, p: Address): (r: Boxed)
    requires p != NullAddress && p !in a.store
    ensures r.obj == HeapWord(p)
    ensures GetHeapPtr(r.obj) == p && PayloadField(r.obj) == p.bits
    ensures r.alloc.typeLookup == a.typeLookup[p := k]
    ensures r.alloc.store == a.store[p := Fresh(k)]
    ensures Valid(a) ==> Valid(r.alloc)
  {
    var a1 := Alloc(a, k, p);
    Boxed(HeapWord(p), a1.(typeLookup := a1.typeLookup[p := TypeOf(a1.store[p])]))
  }

  /** `dealloc_heap<K>`: when the word's pointer is non-null, erases its side
      table entry, destroys the object and resets the word to the bare heap
      signature; a null pointer leaves everything as it is. K is never
      compared with the recorded kind. */
  function DeallocHeapAs(w: Word, a: Allocator, k: HeapObjectType): (r: Boxed)
    ensures GetHeapPtr(w) == NullAddress ==> r == Boxed(w, a)
    ensures GetHeapPtr(w) != NullAddress ==>
              && r.obj == HeapTypeValue
              && r.alloc.typeLookup == a.typeLookup - {GetHeapPtr(w)}
              && r.alloc.store == a.store - {GetHeapPtr(w)}
    ensures Valid(a) ==> Valid(r.alloc)
  {
    var p := GetHeapPtr(w);
    if p != NullAddress then
      var a1 := Dealloc(a.(typeLookup := a.typeLookup - {p}), p);
      assert a1.store == a.store - {p};
      Boxed(HeapTypeValue, a1)
    else
      Boxed(w, a)
  }

  /** The member `dealloc_heap`: deallocates as the recorded kind when the
      word refers to a recorded object, and does nothing otherwise. */
  function DeallocHeap(w: Word, a: Allocator): (r: Boxed)
    ensures GetHeapPtr(w) != NullAddress && GetHeapPtr(w) in a.typeLookup ==>
              r == DeallocHeapAs(w, a, a.typeLookup[GetHeapPtr(w)])
    ensures !(GetHeapPtr(w) != NullAddress && GetHeapPtr(w) in a.typeLookup) ==> r == Boxed(w, a)
  {
    if IsHeapString(w, a) then
      DeallocHeapAs(w, a, StringType)
    else if IsList(w, a) then
      DeallocHeapAs(w, a, ListType)
    else if IsDictionary(w, a) then
      DeallocHeapAs(w, a, DictionaryType)
    else
      Boxed(w, a)
  }

  /** Writes an object back through a heap word, as a mutation through the
      reference an `as_*` accessor returns. */
  function Store(w: Word, a: Allocator, o: HeapObj): (r: Allocator)
    requires Valid(a) && IsHeap(w) && IsKind(w, a, TypeOf(o))
    ensures Valid(r) && r.typeLookup == a.typeLookup
    ensures r.store[GetHeapPtr(w)] == o
    ensures forall q :: q in a.store && q != GetHeapPtr(w) ==> r.store[q] == a.store[q]
  {
    Update(a, GetHeapPtr(w), o)
  }

  // The lifecycle.

  /** After `alloc_heap<K>` exactly the test for K holds. */
  lemma AllocHeapHasExactlyItsKind(a: Allocator, k: HeapObjectType, p: Address)
    requires p != NullAddress && p !in a.store
    ensures IsHeap(AllocHeap(a, k, p).obj)
    ensures IsHeapString(AllocHeap(a, k, p).obj, AllocHeap(a, k, p).alloc) <==> k == StringType
    ensures IsList(AllocHeap(a, k, p).obj, AllocHeap(a, k, p).alloc) <==> k == ListType
    ensures IsDictionary(AllocHeap(a, k, p).obj, AllocHeap(a, k, p).alloc) <==> k == DictionaryType
  {
    HeapWordIsHeap(p);
  }

  /** The kind argument of `dealloc_heap<K>` does not affect the result. */
  lemma DeallocIgnoresKind(w: Word, a: Allocator, k1: HeapObjectType, k2: HeapObjectType)
    ensures DeallocHeapAs(w, a, k1) == DeallocHeapAs(w, a, k2)
  {
  }

  /** The bare heap signature has a null pointer: no heap test holds of it
      and deallocating it again changes nothing. */
  lemma DeallocatedWordIsNull(a: Allocator, k: HeapObjectType)
    ensures GetHeapPtr(HeapTypeValue) == NullAddress && IsHeap(HeapTypeValue)
    ensures !IsHeapString(HeapTypeValue, a) && !IsList(HeapTypeValue, a) && !IsDictionary(HeapTypeValue, a)
    ensures DeallocHeapAs(HeapTypeValue, a, k) == Boxed(HeapTypeValue, a)
    ensures DeallocHeap(HeapTypeValue, a) == Boxed(HeapTypeValue, a)
  {
  }

  /** Allocating and then deallocating, as any kind, gives back the allocator
      allocated from and leaves the word as the bare heap signature, after
      which no heap test holds and a second deallocation is a no-op. */
  lemma AllocThenDealloc(a: Allocator, k: HeapObjectType, k2: HeapObjectType, p: Address)
    requires Valid(a) && p != NullAddress && p !in a.store
    ensures var b := AllocHeap(a, k, p);
            var d := DeallocHeapAs(b.obj, b.alloc, k2);
            && d == Boxed(HeapTypeValue, a)
            && !IsHeapString(d.obj, d.alloc) && !IsList(d.obj, d.alloc) && !IsDictionary(d.obj, d.alloc)
            && DeallocHeapAs(d.obj, d.alloc, k) == d
  {
    var b := AllocHeap(a, k, p);
    var d := DeallocHeapAs(b.obj, b.alloc, k2);
    assert d.alloc.store == a.store;
    assert d.alloc.typeLookup == a.typeLookup;
    DeallocatedWordIsNull(a, k);
  }

  /** Heap references are not inline values. */
  lemma HeapWordsAreNotInline(p: Address)
    ensures !IsFloat64(HeapWord(p)) && !IsSsoString(HeapWord(p))
    ensures !IsQnan(HeapWord(p)) && !IsBoolean(HeapWord(p))
    ensures !IsNothing(HeapWord(p)) && !IsInt32(HeapWord(p))
  {
    HeapWordLayout(p);
    HeapWordIsHeap(p);
    FixedKindsExclusive(HeapWord(p));
  }

  /** The kind tests find the pointer without looking at the tag bits, while
      the heap test, which dereferencing requires, looks at them: setting the
      tag of a heap string's word to 101 keeps the kind test true, makes the
      short-string test true as well, and makes the heap test false. */
  lemma KindTestsIgnoreTag(w: Word, a: Allocator)
    requires IsHeap(w) && IsHeapString(w, a)
    ensures IsHeapString(w | FixedTypePackedStringMask, a)
    ensures IsSsoString(w | FixedTypePackedStringMask)
    ensures !IsHeap(w | FixedTypePackedStringMask)
  {
  }

  /** A heap string set through its reference reads back what was set
      (`as_string_heap(a).set(s)` then `view()`), and the object stays a
      heap string. */
  lemma StringHeapRoundTrip(w: Word, a: Allocator, text: seq<Byte>)
    requires Valid(a) && IsHeap(w) && IsHeapString(w, a)
    ensures var a2 := Store(w, a, StringObj(HeapString.Set(AsStringHeap(w, a), text)));
            IsHeapString(w, a2) && HeapString.View(AsStringHeap(w, a2)) == text
  {
  }

  /** Appending through a list reference. */
  lemma ListSetThroughReference(w: Word, a: Allocator, args: seq<Word>)
    requires Valid(a) && IsHeap(w) && IsList(w, a)
    ensures var a2 := Store(w, a, ListObj(HeapList.Set(AsList(w, a), args)));
            IsList(w, a2) && AsList(w, a2).objects == AsList(w, a).objects + args
  {
  }
}
