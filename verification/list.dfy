/** The heap-allocated list (list.hpp): an ordered sequence of boxed values
    that grows by appending. */
module HeapList {
  import opened NanBox
  import opened HeapObject

  datatype List = List(objects: seq<Word>)

  /** A freshly allocated list is empty. */
  const EmptyList: List := List([])

  function PushBack(l: List, x: Word): List
  {
    l.(objects := l.objects + [x])
  }

  /** Appends the arguments one `push_back` at a time, left to right. */
  function Set(l: List, args: seq<Word>): (r: List)
    ensures r.objects == l.objects + args
    ensures |r.objects| == |l.objects| + |args|
    decreases |args|
  {
    if args == [] then
      l
    else
      var r := Set(PushBack(l, args[0]), args[1..]);
      assert l.objects + args == (l.objects + [args[0]]) + args[1..];
      r
  }

  /** Empties the list. */
  function Reset(l: List): (r: List)
    ensures r.objects == []
  {
    l.(objects := [])
  }

  /** Empties the list, then appends the arguments. */
  function ResetTo(l: List, args: seq<Word>): (r: List)
    ensures r.objects == args
  {
    Set(Reset(l), args)
  }

  function Type(l: List): HeapObjectType
  {
    ListType
  }

  /** `set` keeps the existing elements in place and puts the i-th argument
      right after them, at position |objects| + i. */
  lemma SetAppendsInOrder(l: List, args: seq<Word>)
    ensures forall i :: 0 <= i < |l.objects| ==> Set(l, args).objects[i] == l.objects[i]
    ensures forall i :: 0 <= i < |args| ==> Set(l, args).objects[|l.objects| + i] == args[i]
  {
  }

  /** Two calls of `set` append the same as one call with both argument
      lists. */
  lemma SetTwice(l: List, a: seq<Word>, b: seq<Word>)
    ensures Set(Set(l, a), b) == Set(l, a + b)
  {
  }

  lemma TypeIsList(l: List)
    ensures Type(l) == ListType
  {
  }
}
