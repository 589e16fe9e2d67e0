/** Listing the keys and values of a hash map in some order, as iterating a
    Rust `HashMap` does: the order is unspecified, the contents are not. */
module Enumerate {

  predicate Distinct<T(==)>(s: seq<T>) {
    forall i, j :: 0 <= i < j < |s| ==> s[i] != s[j]
  }

  /** Appending an element not yet present keeps a sequence free of repeats. */
  lemma AppendFresh<T>(s: seq<T>, x: T)
    requires Distinct(s) && x !in s
    ensures Distinct(s + [x])
  {
  }

  /** Concatenating two repeat-free sequences with no element in common keeps them so. */
  lemma ConcatDisjoint<T>(s: seq<T>, t: seq<T>)
    requires Distinct(s) && Distinct(t)
    requires forall i, j :: 0 <= i < |s| && 0 <= j < |t| ==> s[i] != t[j]
    ensures Distinct(s + t)
  {
  }

  /** `keys().cloned().collect()`: every element exactly once. */
  method SetToSeq<T(==)>(s: set<T>) returns (r: seq<T>)
    ensures |r| == |s|
    ensures forall x :: x in r <==> x in s
    ensures Distinct(r)
  {
    r := [];
    var rest := s;
    while rest != {}
      invariant rest <= s
      invariant forall x :: x in r <==> x in s && x !in rest
      invariant Distinct(r)
      invariant |r| + |rest| == |s|
      decreases |rest|
    {
      var x :| x in rest;
      r := r + [x];
      rest := rest - {x};
    }
  }

  /** `values().collect()`: one element per key. The ghost `keys` names, position by
      position, the key each element was read from; it lists every key exactly once. */
  method ValuesOf<K(==), V(==)>(m: map<K, V>) returns (r: seq<V>, ghost keys: seq<K>)
    ensures Distinct(keys) && |keys| == |m|
    ensures forall k :: k in keys <==> k in m
    ensures |r| == |keys|
    ensures forall i :: 0 <= i < |r| ==> keys[i] in m && r[i] == m[keys[i]]
    ensures forall i :: 0 <= i < |r| ==> r[i] in m.Values
    ensures forall k :: k in m ==> m[k] in r
  {
    r, keys := [], [];
    var rest := m.Keys;
    while rest != {}
      invariant rest <= m.Keys
      invariant forall k :: k in keys <==> k in m && k !in rest
      invariant Distinct(keys)
      invariant |keys| + |rest| == |m|
      invariant |r| == |keys|
      invariant forall i :: 0 <= i < |r| ==> keys[i] in m && r[i] == m[keys[i]]
      decreases |rest|
    {
      var k :| k in rest;
      r, keys := r + [m[k]], keys + [k];
      rest := rest - {k};
    }
    forall k | k in m
      ensures m[k] in r
    {
      var i :| 0 <= i < |keys| && keys[i] == k;
      assert r[i] == m[k];
    }
  }
}
