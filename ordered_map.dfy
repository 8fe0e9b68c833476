/**
  PHP arrays keyed by strings. Such an array remembers the order in which its
  keys were first inserted: assigning to an existing key keeps its place, a new
  key goes last, and `unset` removes a key without moving the others.
 */
module OrderedMaps {

  /** No key occurs twice. */
  ghost predicate Distinct(s: seq<string>)
  {
    s == [] || (s[0] !in s[1..] && Distinct(s[1..]))
  }

  lemma {:induction false} DistinctIndex(s: seq<string>, i: nat, j: nat)
    requires Distinct(s) && i < |s| && j < |s| && s[i] == s[j]
    ensures i == j
  {
    if i > 0 && j > 0 {
      DistinctIndex(s[1..], i - 1, j - 1);
    }
  }

  lemma NotInPrefix(s: seq<string>, n: nat)
    requires Distinct(s) && n < |s|
    ensures s[n] !in s[..n]
  {
    forall i | 0 <= i < n
      ensures s[..n][i] != s[n]
    {
      if s[i] == s[n] {
        DistinctIndex(s, i, n);
      }
    }
  }

  lemma {:induction false} DistinctSnoc(s: seq<string>, x: string)
    requires Distinct(s) && x !in s
    ensures Distinct(s + [x])
  {
    if s != [] {
      assert s == [s[0]] + s[1..];
      assert (s + [x])[1..] == s[1..] + [x];
      DistinctSnoc(s[1..], x);
    }
  }

  /** `s` with every occurrence of `x` dropped, the rest kept in order. */
  function Without(s: seq<string>, x: string): (r: seq<string>)
    ensures forall y :: y in r <==> y in s && y != x
    ensures Distinct(s) ==> Distinct(r)
    ensures x !in s ==> r == s
  {
    if s == [] then []
    else if s[0] == x then Without(s[1..], x)
    else
      var w := Without(s[1..], x);
      assert ([s[0]] + w)[1..] == w;
      [s[0]] + w
  }

  /** An array with string keys: its keys in iteration order, and its entries. */
  datatype OrderedMap<V> = OrderedMap(keys: seq<string>, entries: map<string, V>)
  {
    ghost predicate Valid()
    {
      Distinct(keys) && forall k :: k in entries <==> k in keys
    }

    /** `$a[$k] = $v`. */
    function Put(k: string, v: V): (r: OrderedMap<V>)
      requires Valid()
      ensures r.Valid()
      ensures r.entries == entries[k := v]
      ensures k in entries ==> r.keys == keys
      ensures k !in entries ==> r.keys == keys + [k]
    {
      if k in entries then OrderedMap(keys, entries[k := v])
      else
        DistinctSnoc(keys, k);
        OrderedMap(keys + [k], entries[k := v])
    }

    /** `unset($a[$k])`. */
    function Remove(k: string): (r: OrderedMap<V>)
      requires Valid()
      ensures r.Valid()
      ensures r.entries == entries - {k}
      ensures r.keys == Without(keys, k)
    {
      OrderedMap(Without(keys, k), entries - {k})
    }
  }

  lemma KeyAt<V>(m: OrderedMap<V>, i: nat)
    requires m.Valid() && i < |m.keys|
    ensures m.keys[i] in m.entries
  {
  }

  function Empty<V>(): (r: OrderedMap<V>)
    ensures r.Valid() && r.keys == []
  {
    OrderedMap([], map[])
  }
}
