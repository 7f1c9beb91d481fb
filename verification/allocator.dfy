/** The allocator record the heap operations are threaded through: the live
    heap objects by address, and the side table `type_lookup` recording the
    kind of each allocated address. */
module Allocator {
  import opened HeapObject
  import HeapString
  import HeapList
  import HeapDictionary

  /** A heap object: one of the three payloads. */
  datatype HeapObj =
    | StringObj(str: HeapString.Str)
    | ListObj(list: HeapList.List)
    | DictObj(dict: HeapDictionary.Dict)

  /** The object's `type()`. */
  function TypeOf(o: HeapObj): HeapObjectType
  {
    match o
    case StringObj(s) => HeapString.Type(s)
    case ListObj(l) => HeapList.Type(l)
    case DictObj(d) => HeapDictionary.Type(d)
  }

  /** The object `alloc<K>()` constructs: an empty payload of kind K. */
  function Fresh(k: HeapObjectType): (o: HeapObj)
    ensures TypeOf(o) == k
    ensures o.StringObj? ==> HeapString.View(o.str) == []
    ensures o.ListObj? ==> o.list.objects == []
    ensures o.DictObj? ==> HeapDictionary.Size(o.dict) == 0
  {
    match k
    case StringType => StringObj(HeapString.EmptyStr)
    case ListType => ListObj(HeapList.EmptyList)
    case DictionaryType => DictObj(HeapDictionary.EmptyDict)
  }

  datatype Allocator = Allocator(store: map<Address, HeapObj>, typeLookup: map<Address, HeapObjectType>)

  const EmptyAllocator: Allocator := Allocator(map[], map[])

  /** The side table records exactly the live objects, each with its own
      kind, and nothing lives at the null address. */
  predicate Valid(a: Allocator)
  {
    && NullAddress !in a.store
    && a.typeLookup.Keys == a.store.Keys
    && forall p :: p in a.typeLookup ==> TypeOf(a.store[p]) == a.typeLookup[p]
  }

  /** `alloc<K>()`: a fresh object of kind K at an address not in use. Which
      address is the allocator's choice, so it is a parameter. The side
      table is left to the caller. */
  function Alloc(a: Allocator, k: HeapObjectType, p: Address): (r: Allocator)
    requires p != NullAddress && p !in a.store
    ensures r.store.Keys == a.store.Keys + {p}
    ensures TypeOf(r.store[p]) == k
    ensures forall q :: q in a.store ==> r.store[q] == a.store[q]
    ensures r.typeLookup == a.typeLookup
  {
    a.(store := a.store[p := Fresh(k)])
  }

  /** `dealloc<K>(ptr)`: destroys the object at `p`. The side table is left
      to the caller. */
  function Dealloc(a: Allocator, p: Address): (r: Allocator)
    ensures r.store.Keys == a.store.Keys - {p}
    ensures forall q :: q in r.store ==> r.store[q] == a.store[q]
    ensures r.typeLookup == a.typeLookup
  {
    a.(store := a.store - {p})
  }

  /** Writing through a reference to a live object: the object at `p` is
      replaced by one of the same kind. */
  function Update(a: Allocator, p: Address, o: HeapObj): (r: Allocator)
    requires p in a.store && TypeOf(o) == TypeOf(a.store[p])
    ensures Valid(a) ==> Valid(r)
    ensures r.store.Keys == a.store.Keys && r.store[p] == o
    ensures forall q :: q in a.store && q != p ==> r.store[q] == a.store[q]
    ensures r.typeLookup == a.typeLookup
  {
    a.(store := a.store[p := o])
  }

  lemma EmptyAllocatorValid()
    ensures Valid(EmptyAllocator)
  {
  }
}
