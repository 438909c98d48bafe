/** Names, texts and insertion-ordered dictionaries, shared by every stage. */
module Tables {

  /** A message or enum name (the `\w+` after the keyword). */
  type Name = string

  /** A span of schema text. */
  type Text = string

  /** No element occurs twice (stated on the last element, so that it unfolds one step at a time). */
  predicate Distinct<T(==)>(s: seq<T>) {
    |s| <= 1 || (s[|s| - 1] !in s[..|s| - 1] && Distinct(s[..|s| - 1]))
  }

  function Elems<T>(s: seq<T>): set<T> {
    set x | x in s
  }

  lemma ElemsEmpty<T>(s: seq<T>)
    ensures Elems(s) == {} <==> s == []
  {
    if s != [] {
      assert s[0] in Elems(s);
    }
  }

  lemma ElemsCons<T>(x: T, s: seq<T>)
    ensures Elems([x] + s) == {x} + Elems(s)
  {
    assert forall y :: y in [x] + s <==> y == x || y in s;
  }

  lemma ElemsSnoc<T>(s: seq<T>, x: T)
    ensures Elems(s + [x]) == Elems(s) + {x}
    ensures Distinct(s + [x]) <==> Distinct(s) && x !in s
  {
    assert (s + [x])[..|s|] == s;
  }

  /** Two maps with the same keys and the same value at every key are equal. */
  lemma MapsAgree<K, V>(a: map<K, V>, b: map<K, V>)
    requires a.Keys == b.Keys && forall k :: k in a ==> a[k] == b[k]
    ensures a == b
  {
  }

  /**
   * A Python dict keyed by names: its entries, and its keys in insertion order
   * (`Put` only appends a key that is not there yet, so the keys never repeat).
   */
  datatype Dict<V> = Dict(keys: seq<Name>, items: map<Name, V>) {

    ghost predicate Valid() {
      forall k :: k in items <==> k in keys
    }

    /** `d[k] = v`: a new key is appended, an existing key keeps its position. */
    function Put(k: Name, v: V): (d: Dict<V>)
      requires Valid()
      ensures d.Valid() && d.items == items[k := v]
      ensures d.keys == if k in items then keys else keys + [k]
    {
      if k in items then Dict(keys, items[k := v]) else Dict(keys + [k], items[k := v])
    }
  }

  function EmptyDict<V>(): (d: Dict<V>)
    ensures d.Valid() && d.items == map[]
  {
    Dict([], map[])
  }
}
