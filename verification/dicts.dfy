/**
  Python's insertion-ordered `dict`, the container behind every mistake table and
  every result map of the scorer. A dict is its keys in insertion order together with
  the key-to-value map; assigning to an existing key keeps that key's position.
 */
module Dicts {

  /** Keys in insertion order, and the key-to-value map. */
  datatype Dict<K, V> = Dict(keys: seq<K>, vals: map<K, V>)

  /** No element of `s` occurs twice. */
  predicate Distinct<T(==)>(s: seq<T>) {
    forall i, j :: 0 <= i < j < |s| ==> s[i] != s[j]
  }

  /** The elements of a sequence, as a set. */
  function Elems<T>(s: seq<T>): set<T> {
    set x | x in s
  }

  /** The key order lists every key of the map exactly once. */
  predicate Valid<K, V>(d: Dict<K, V>) {
    && Distinct(d.keys)
    && d.vals.Keys == Elems(d.keys)
    && (forall i :: 0 <= i < |d.keys| ==> d.keys[i] in d.vals)
  }

  /** `{}` */
  function Empty<K, V>(): (d: Dict<K, V>)
    ensures Valid(d)
    ensures |d.keys| == 0 && d.vals == map[]
  {
    Dict([], map[])
  }

  /** `d[k] = v`: a new key goes to the end of the order, an existing key keeps its place. */
  function Put<K, V>(d: Dict<K, V>, k: K, v: V): (r: Dict<K, V>)
    ensures Valid(d) ==> Valid(r)
    ensures k in r.vals && r.vals[k] == v
    ensures r.vals.Keys == d.vals.Keys + {k}
    ensures forall j :: j in d.vals && j != k ==> r.vals[j] == d.vals[j]
    ensures k in d.vals ==> r.keys == d.keys
    ensures k !in d.vals ==> r.keys == d.keys + [k]
  {
    if k in d.vals then Dict(d.keys, d.vals[k := v]) else Dict(d.keys + [k], d.vals[k := v])
  }

  /** The inner dict stored under `k`, or `{}` when `k` is absent: the dict that
      `d.setdefault(k, {})` would return. */
  function Child<K, K2, V>(d: Dict<K, Dict<K2, V>>, k: K): (c: Dict<K2, V>)
    ensures k in d.vals ==> c == d.vals[k]
    ensures k !in d.vals ==> c.keys == [] && c.vals == map[]
  {
    if k in d.vals then d.vals[k] else Empty()
  }

  /** `d.items()`: the key-value pairs in iteration order. */
  function Items<K, V>(d: Dict<K, V>): (r: seq<(K, V)>)
    requires Valid(d)
    ensures |r| == |d.keys|
    ensures forall i :: 0 <= i < |r| ==> r[i].0 == d.keys[i] && r[i].1 == d.vals[d.keys[i]]
  {
    seq(|d.keys|, i requires 0 <= i < |d.keys| => (d.keys[i], d.vals[d.keys[i]]))
  }

  /** The keys of a sequence of pairs. */
  function KeysOf<K, V>(items: seq<(K, V)>): (r: seq<K>)
    ensures |r| == |items|
    ensures forall i :: 0 <= i < |r| ==> r[i] == items[i].0
  {
    seq(|items|, i requires 0 <= i < |items| => items[i].0)
  }

  /** The dict obtained by assigning each pair in turn, starting from `{}`. */
  function FromItems<K, V>(items: seq<(K, V)>): (d: Dict<K, V>)
    ensures Valid(d)
    decreases |items|
  {
    if |items| == 0 then Empty()
    else
      var last := items[|items| - 1];
      Put(FromItems(items[..|items| - 1]), last.0, last.1)
  }

  /** Assigning a fresh key appends one pair to the iteration. */
  lemma ItemsPutFresh<K, V>(d: Dict<K, V>, k: K, v: V)
    requires Valid(d) && k !in d.vals
    ensures Items(Put(d, k, v)) == Items(d) + [(k, v)]
  {
    var r := Put(d, k, v);
    forall i | 0 <= i < |d.keys|
      ensures Items(r)[i] == Items(d)[i]
    {
      assert d.keys[i] in d.vals;
    }
  }

  /** The keys of a dict's items are its key order. */
  lemma KeysOfItems<K, V>(d: Dict<K, V>)
    requires Valid(d)
    ensures KeysOf(Items(d)) == d.keys
  {
  }

  /** In a repetition-free sequence the last element is not among the others. */
  lemma LastNotInPrefix<T>(s: seq<T>)
    requires |s| > 0 && Distinct(s)
    ensures s[|s| - 1] !in s[..|s| - 1]
  {
    var n := |s| - 1;
    forall i | 0 <= i < n
      ensures s[..n][i] != s[n]
    {
    }
  }

  /** With no key assigned twice, iterating the built dict gives back the pairs in order. */
  lemma {:induction false} ItemsFromItems<K, V>(items: seq<(K, V)>)
    requires Distinct(KeysOf(items))
    ensures Items(FromItems(items)) == items
  {
    if |items| > 0 {
      var n := |items| - 1;
      assert KeysOf(items[..n]) == KeysOf(items)[..n];
      ItemsFromItems(items[..n]);
      ItemsFromItemsStep(items);
    }
  }

  /** If the pairs before the last one iterate back, so do all of them. */
  lemma ItemsFromItemsStep<K, V>(items: seq<(K, V)>)
    requires |items| > 0 && Distinct(KeysOf(items))
    requires Items(FromItems(items[..|items| - 1])) == items[..|items| - 1]
    ensures Items(FromItems(items)) == items
  {
    var n := |items| - 1;
    var d := FromItems(items[..n]);
    LastFresh(items);
    ItemsPutFresh(d, items[n].0, items[n].1);
    SplitLast(items);
  }

  /** A non-empty sequence is its prefix followed by its last element. */
  lemma SplitLast<T>(s: seq<T>)
    requires |s| > 0
    ensures s == s[..|s| - 1] + [s[|s| - 1]]
  {
  }

  /** If the pairs before the last one iterate back, the last key is new to their dict. */
  lemma LastFresh<K, V>(items: seq<(K, V)>)
    requires |items| > 0 && Distinct(KeysOf(items))
    requires Items(FromItems(items[..|items| - 1])) == items[..|items| - 1]
    ensures items[|items| - 1].0 !in FromItems(items[..|items| - 1]).vals
  {
    var n := |items| - 1;
    var d := FromItems(items[..n]);
    KeysOfItems(d);
    LastNotInPrefix(KeysOf(items));
    assert KeysOf(items)[..n] == d.keys;
  }

  /** With no key assigned twice, the built dict's key order is the order of the pairs. */
  lemma FromItemsKeys<K, V>(items: seq<(K, V)>)
    requires Distinct(KeysOf(items))
    ensures FromItems(items).keys == KeysOf(items)
  {
    ItemsFromItems(items);
    KeysOfItems(FromItems(items));
  }

  /** Appending an element grows the element set by it. */
  lemma ElemsAppend<T>(s: seq<T>, x: T)
    ensures Elems(s + [x]) == Elems(s) + {x}
  {
    assert forall y :: y in s + [x] <==> y in s || y == x;
  }

  /** In a repetition-free sequence the first `i` elements hold each earlier element but
      not the `i`-th, and adding the `i`-th gives the first `i + 1`. */
  lemma PrefixElems<T>(s: seq<T>, i: nat)
    requires Distinct(s) && i < |s|
    ensures forall l :: 0 <= l < i ==> s[l] in Elems(s[..i])
    ensures s[i] !in Elems(s[..i])
    ensures Elems(s[..i + 1]) == Elems(s[..i]) + {s[i]}
  {
    forall l | 0 <= l < i
      ensures s[l] in Elems(s[..i])
    {
      assert s[l] == s[..i][l];
    }
    assert s[..i + 1] == s[..i] + [s[i]];
    ElemsAppend(s[..i], s[i]);
  }

  /** A sequence has at least as many positions as distinct elements, and exactly as many
      precisely when no element repeats. */
  lemma {:induction false} DistinctCard<T>(s: seq<T>)
    ensures |Elems(s)| <= |s|
    ensures |Elems(s)| == |s| <==> Distinct(s)
  {
    if |s| == 0 {
      assert Elems(s) == {};
    } else {
      var n := |s| - 1;
      var pre := s[..n];
      assert s == pre + [s[n]];
      DistinctCard(pre);
      ElemsAppend(pre, s[n]);
      if s[n] in pre {
        assert s[n] in Elems(pre);
        var i :| 0 <= i < n && pre[i] == s[n];
        assert s[i] == s[n];
        assert !Distinct(s);
      } else {
        assert s[n] !in Elems(pre);
        if Distinct(s) {
          assert Distinct(pre);
        } else {
          assert !Distinct(pre) by {
            var i, j :| 0 <= i < j < |s| && s[i] == s[j];
            assert j < n;
            assert pre[i] == pre[j];
          }
        }
      }
    }
  }

  /** The elements of `s`, each once, in the order of their first occurrence. */
  function Dedup<T(==)>(s: seq<T>): (r: seq<T>)
    ensures Distinct(r)
    ensures Elems(r) == Elems(s)
    decreases |s|
  {
    if |s| == 0 then []
    else
      var d := Dedup(s[..|s| - 1]);
      var x := s[|s| - 1];
      assert s == s[..|s| - 1] + [x];
      ElemsAppend(s[..|s| - 1], x);
      if x in d then d
      else
        ElemsAppend(d, x);
        d + [x]
  }

  /** Of two elements of `Dedup(s)`, the earlier one occurs in `s` before any occurrence
      of the later one. */
  lemma {:induction false} DedupOrder<T>(s: seq<T>, i: nat, j: nat)
    requires i < j < |Dedup(s)|
    ensures exists p :: 0 <= p < |s| && s[p] == Dedup(s)[i]
                        && forall q :: 0 <= q <= p ==> s[q] != Dedup(s)[j]
    decreases |s|
  {
    var n := |s| - 1;
    var pre := s[..n];
    var d := Dedup(pre);
    var x := s[n];
    if x in d || j < |d| {
      DedupOrder(pre, i, j);
      var p :| 0 <= p < |pre| && pre[p] == d[i] && forall q :: 0 <= q <= p ==> pre[q] != d[j];
      assert s[p] == Dedup(s)[i];
      assert forall q :: 0 <= q <= p ==> s[q] == pre[q];
    } else {
      assert d[i] in Elems(pre);
      var p :| 0 <= p < |pre| && pre[p] == d[i];
      assert x !in Elems(pre);
      assert forall q :: 0 <= q <= p ==> s[q] == pre[q] && pre[q] in Elems(pre);
      assert s[p] == Dedup(s)[i];
    }
  }

  /** If a dict's key order lists the first occurrences of `ids`, assigning `k` leaves a
      key order that lists the first occurrences of `ids + [k]`. */
  lemma PutDedup<K, V>(d: Dict<K, V>, ids: seq<K>, k: K, keys': seq<K>)
    requires Valid(d) && d.keys == Dedup(ids)
    requires keys' == if k in d.vals then d.keys else d.keys + [k]
    ensures keys' == Dedup(ids + [k])
  {
    assert (ids + [k])[..|ids|] == ids;
    assert k in d.vals <==> k in Elems(d.keys);
  }

  /** Two repetition-free sequences with no common element concatenate to one. */
  lemma DistinctConcat<T>(a: seq<T>, b: seq<T>)
    requires Distinct(a) && Distinct(b)
    requires forall x :: x in a ==> x !in b
    ensures Distinct(a + b)
  {
    forall i, j | 0 <= i < j < |a + b|
      ensures (a + b)[i] != (a + b)[j]
    {
      if j < |a| {
      } else if i >= |a| {
        assert (a + b)[i] == b[i - |a|] && (a + b)[j] == b[j - |a|];
      } else {
        assert (a + b)[i] in a && (a + b)[j] in b;
      }
    }
  }
}
