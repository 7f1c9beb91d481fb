/** What every heap object shares: its kind, and the 48-bit address it is
    reached through. */
module HeapObject {

  /** The three kinds of heap object (heap_object_type). */
  datatype HeapObjectType = StringType | ListType | DictionaryType

  /** A pointer value, as the 64-bit integer it is reinterpreted as. */
  datatype Pointer = Pointer(bits: bv64)

  /** A heap address: a pointer that fits the 48-bit payload of a word. */
  type Address = p: Pointer | p.bits <= 0xFFFF_FFFF_FFFF witness Pointer(0)

  /** Address 0 is the null pointer. */
  const NullAddress: Address := Pointer(0)
}
