/** The heap-allocated dictionary (dictionary.hpp): an unordered map from
    boxed keys to boxed values. The map's key equality is equality of the
    keys' hashes, so a dictionary holds at most one entry per key hash; the
    model indexes the entries by that hash. The key hash is a parameter. */
module HeapDictionary {
  import opened Util
  import opened NanBox
  import opened HeapObject

  /** The hash the map buckets and compares keys by. */
  type KeyHasher = Word -> HashValue

  /** `entries[h]` is the (key, value) pair whose key hashes to `h`. */
  datatype Dict = Dict(entries: map<HashValue, (Word, Word)>)

  /** A freshly allocated dictionary is empty. */
  const EmptyDict: Dict := Dict(map[])

  /** Every entry sits under its own key's hash. */
  predicate WellKeyed(d: Dict, hash: KeyHasher)
  {
    forall h :: h in d.entries ==> hash(d.entries[h].0) == h
  }

  datatype Option<T> = None | Some(value: T)

  /** `find(key)`: the value stored for a key equal to `key`, if any. */
  function Lookup(d: Dict, key: Word, hash: KeyHasher): (r: Option<Word>)
    ensures r.Some? <==> hash(key) in d.entries
    ensures r.Some? ==> r.value == d.entries[hash(key)].1
  {
    if hash(key) in d.entries then Some(d.entries[hash(key)].1) else None
  }

  function Size(d: Dict): nat
  {
    |d.entries|
  }

  /** `unordered_map::insert`: adds the pair when no equal key is present,
      and otherwise leaves the map as it is. */
  function Insert(d: Dict, pair: (Word, Word), hash: KeyHasher): (r: Dict)
    ensures r.entries.Keys == d.entries.Keys + {hash(pair.0)}
    ensures hash(pair.0) in d.entries ==> r == d
    ensures hash(pair.0) !in d.entries ==> r.entries[hash(pair.0)] == pair
    ensures forall h :: h in d.entries ==> r.entries[h] == d.entries[h]
  {
    if hash(pair.0) in d.entries then d else Dict(d.entries[hash(pair.0) := pair])
  }

  /** The key hashes of a list of pairs. */
  function KeyHashes(pairs: seq<(Word, Word)>, hash: KeyHasher): set<HashValue>
  {
    set i | 0 <= i < |pairs| :: hash(pairs[i].0)
  }

  /** The i-th pair is the first in the list with its key hash. */
  predicate FirstOfItsKey(pairs: seq<(Word, Word)>, hash: KeyHasher, i: nat)
    requires i < |pairs|
  {
    forall j :: 0 <= j < i ==> hash(pairs[j].0) != hash(pairs[i].0)
  }

  /** Inserts the pairs left to right. Existing entries are never removed
      or modified; a new entry is added for every key hash not yet present,
      holding the first pair in the list with that key hash. */
  function Set(d: Dict, pairs: seq<(Word, Word)>, hash: KeyHasher): (r: Dict)
    ensures r.entries.Keys == d.entries.Keys + KeyHashes(pairs, hash)
    ensures forall h :: h in d.entries ==> r.entries[h] == d.entries[h]
    ensures forall i :: 0 <= i < |pairs| && hash(pairs[i].0) !in d.entries && FirstOfItsKey(pairs, hash, i) ==>
              r.entries[hash(pairs[i].0)] == pairs[i]
    decreases |pairs|
  {
    if pairs == [] then
      d
    else
      var d1 := Insert(d, pairs[0], hash);
      var r := Set(d1, pairs[1..], hash);
      SetStep(d, pairs, hash, d1, r);
      r
  }

  /** The inductive step of `Set`: what the recursive call promises about
      the tail, after the head has been inserted, is what `Set` promises
      about the whole list. */
  lemma {:induction false} SetStep(d: Dict, pairs: seq<(Word, Word)>, hash: KeyHasher, d1: Dict, r: Dict)
    requires pairs != []
    requires d1 == Insert(d, pairs[0], hash)
    requires r.entries.Keys == d1.entries.Keys + KeyHashes(pairs[1..], hash)
    requires forall h :: h in d1.entries ==> r.entries[h] == d1.entries[h]
    requires forall i :: 0 <= i < |pairs| - 1 && hash(pairs[i + 1].0) !in d1.entries && FirstOfItsKey(pairs[1..], hash, i) ==>
               r.entries[hash(pairs[i + 1].0)] == pairs[i + 1]
    ensures r.entries.Keys == d.entries.Keys + KeyHashes(pairs, hash)
    ensures forall h :: h in d.entries ==> r.entries[h] == d.entries[h]
    ensures forall i :: 0 <= i < |pairs| && hash(pairs[i].0) !in d.entries && FirstOfItsKey(pairs, hash, i) ==>
              r.entries[hash(pairs[i].0)] == pairs[i]
  {
    KeyHashesCons(pairs, hash);
    forall i | 0 <= i < |pairs| && hash(pairs[i].0) !in d.entries && FirstOfItsKey(pairs, hash, i)
      ensures r.entries[hash(pairs[i].0)] == pairs[i]
    {
      if i > 0 {
        FirstOfItsKeyTail(pairs, hash, i);
      }
    }
  }

  lemma KeyHashesCons(pairs: seq<(Word, Word)>, hash: KeyHasher)
    requires pairs != []
    ensures KeyHashes(pairs, hash) == {hash(pairs[0].0)} + KeyHashes(pairs[1..], hash)
  {
    forall h | h in KeyHashes(pairs, hash) ensures h in {hash(pairs[0].0)} + KeyHashes(pairs[1..], hash) {
      var i :| 0 <= i < |pairs| && h == hash(pairs[i].0);
      if i > 0 {
        assert h == hash(pairs[1..][i - 1].0);
      }
    }
    forall h | h in KeyHashes(pairs[1..], hash) ensures h in KeyHashes(pairs, hash) {
      var i :| 0 <= i < |pairs[1..]| && h == hash(pairs[1..][i].0);
      assert h == hash(pairs[i + 1].0);
    }
  }

  /** Being first of its key in the whole list, at a position past the head,
      means being first of its key in the tail and differing from the head. */
  lemma FirstOfItsKeyTail(pairs: seq<(Word, Word)>, hash: KeyHasher, i: nat)
    requires 0 < i < |pairs| && FirstOfItsKey(pairs, hash, i)
    ensures hash(pairs[0].0) != hash(pairs[i].0)
    ensures FirstOfItsKey(pairs[1..], hash, i - 1)
  {
    assert pairs[1..][i - 1] == pairs[i];
    forall j | 0 <= j < i - 1 ensures hash(pairs[1..][j].0) != hash(pairs[1..][i - 1].0) {
      assert pairs[1..][j] == pairs[j + 1];
    }
  }

  /** Empties the dictionary. */
  function Reset(d: Dict): (r: Dict)
    ensures Size(r) == 0
  {
    Dict(map[])
  }

  /** Empties the dictionary, then inserts the pairs. The result holds one
      entry per distinct key hash, the first pair with that key hash. */
  function ResetTo(d: Dict, pairs: seq<(Word, Word)>, hash: KeyHasher): (r: Dict)
    ensures r.entries.Keys == KeyHashes(pairs, hash)
    ensures forall i :: 0 <= i < |pairs| && FirstOfItsKey(pairs, hash, i) ==>
              r.entries[hash(pairs[i].0)] == pairs[i]
  {
    Set(Reset(d), pairs, hash)
  }

  lemma KeyHashesSingle(k: Word, v: Word, hash: KeyHasher)
    ensures KeyHashes([(k, v)], hash) == {hash(k)}
  {
    KeyHashesCons([(k, v)], hash);
    assert [(k, v)][1..] == [];
  }

  /** Inserting a pair whose key hash is new adds exactly one entry, under
      which the pair's value is found. */
  lemma SetFreshKey(d: Dict, k: Word, v: Word, hash: KeyHasher)
    requires hash(k) !in d.entries
    ensures Size(Set(d, [(k, v)], hash)) == Size(d) + 1
    ensures Lookup(Set(d, [(k, v)], hash), k, hash) == Some(v)
  {
    assert FirstOfItsKey([(k, v)], hash, 0);
    KeyHashesSingle(k, v, hash);
  }

  /** Inserting a pair whose key is equal to a present key changes nothing. */
  lemma SetPresentKey(d: Dict, k: Word, v: Word, hash: KeyHasher)
    requires hash(k) in d.entries
    ensures Set(d, [(k, v)], hash) == d
  {
    KeyHashesSingle(k, v, hash);
  }

  /** Of two pairs with equal keys the first is kept: the dictionary keeps
      the first value given for a key, not the last. */
  lemma FirstValueWins(d: Dict, k1: Word, v1: Word, k2: Word, v2: Word, hash: KeyHasher)
    requires hash(k1) == hash(k2) && hash(k1) !in d.entries
    ensures Lookup(Set(d, [(k1, v1), (k2, v2)], hash), k2, hash) == Some(v1)
    ensures Size(Set(d, [(k1, v1), (k2, v2)], hash)) == Size(d) + 1
  {
    var pairs := [(k1, v1), (k2, v2)];
    assert FirstOfItsKey(pairs, hash, 0);
    KeyHashesCons(pairs, hash);
    KeyHashesSingle(k2, v2, hash);
    assert pairs[1..] == [(k2, v2)];
  }

  /** Every key hash of the list has a first pair carrying it. */
  lemma {:induction false} FirstOfKeyExists(pairs: seq<(Word, Word)>, hash: KeyHasher, h: HashValue) returns (i: nat)
    requires h in KeyHashes(pairs, hash)
    ensures i < |pairs| && hash(pairs[i].0) == h && FirstOfItsKey(pairs, hash, i)
    decreases |pairs|
  {
    if hash(pairs[0].0) == h {
      i := 0;
    } else {
      KeyHashesCons(pairs, hash);
      var t := FirstOfKeyExists(pairs[1..], hash, h);
      i := t + 1;
      assert pairs[i] == pairs[1..][t];
      forall j | 0 <= j < i ensures hash(pairs[j].0) != h {
        if j > 0 {
          assert pairs[j] == pairs[1..][j - 1];
        }
      }
    }
  }

  /** `set` keeps every entry under its own key's hash. */
  lemma SetPreservesWellKeyed(d: Dict, pairs: seq<(Word, Word)>, hash: KeyHasher)
    requires WellKeyed(d, hash)
    ensures WellKeyed(Set(d, pairs, hash), hash)
  {
    var r := Set(d, pairs, hash);
    forall h | h in r.entries ensures hash(r.entries[h].0) == h {
      if h !in d.entries {
        var i := FirstOfKeyExists(pairs, hash, h);
      }
    }
  }

  /** `reset(pairs)` is `reset()` followed by `set(pairs)`: the previous
      content is forgotten. */
  lemma ResetToForgets(d1: Dict, d2: Dict, pairs: seq<(Word, Word)>, hash: KeyHasher)
    ensures ResetTo(d1, pairs, hash) == Set(Reset(d2), pairs, hash)
    ensures Reset(d1) == EmptyDict
  {
  }

  function Type(d: Dict): HeapObjectType
  {
    DictionaryType
  }

  lemma TypeIsDictionary(d: Dict)
    ensures Type(d) == DictionaryType
  {
  }
}
