/** The heap-allocated string (string.hpp): an owned byte string that can
    be viewed, replaced and cleared. */
module HeapString {
  import opened Util
  import opened HeapObject

  datatype Str = Str(d: seq<Byte>)

  /** A freshly allocated string is empty. */
  const EmptyStr: Str := Str([])

  function View(s: Str): seq<Byte>
  {
    s.d
  }

  /** `view()` exposes the whole content: setting a string to its own view
      changes nothing. */
  lemma SetOwnView(s: Str)
    ensures Set(s, View(s)) == s
  {
  }

  /** Replaces the whole content: afterwards the view is exactly `text`. */
  function Set(s: Str, text: seq<Byte>): (r: Str)
    ensures View(r) == text
  {
    s.(d := text)
  }

  /** Clears the content. */
  function Reset(s: Str): (r: Str)
    ensures View(r) == []
  {
    Set(s, [])
  }

  /** Replaces the content, as `Set` does. */
  function ResetTo(s: Str, text: seq<Byte>): (r: Str)
    ensures View(r) == text
  {
    Set(s, text)
  }

  function Type(s: Str): HeapObjectType
  {
    StringType
  }

  /** `Set` forgets the previous content: two strings set to the same text
      are equal, and setting twice keeps only the second text. */
  lemma SetReplacesContent(s1: Str, s2: Str, t: seq<Byte>, u: seq<Byte>)
    ensures Set(s1, t) == Set(s2, t)
    ensures Set(Set(s1, u), t) == Set(s1, t)
  {
  }

  /** `reset(str)` and `set(str)` have the same effect. */
  lemma ResetToIsSet(s: Str, t: seq<Byte>)
    ensures ResetTo(s, t) == Set(s, t)
    ensures Reset(s) == Set(s, []) && Reset(s) == EmptyStr
  {
  }

  lemma TypeIsString(s: Str)
    ensures Type(s) == StringType
  {
  }
}
