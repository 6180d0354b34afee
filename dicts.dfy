/**
 * A Python `dict`, represented by the list its `items()` returns: the
 * keys in insertion order, each once, with their current values.
 * `d[k] = v` keeps an existing key where it is and appends a new one;
 * `dict(items)` performs those assignments from left to right, so that
 * a key stays where it first appeared and takes the value it got last.
 */
module Dicts {
  import opened Wrappers

  function Keys<K, V>(d: seq<(K, V)>): (ks: seq<K>)
    ensures |ks| == |d|
    ensures forall i :: 0 <= i < |d| ==> ks[i] == d[i].0
  {
    if d == [] then [] else [d[0].0] + Keys(d[1..])
  }

  predicate Distinct<K(==)>(ks: seq<K>) {
    forall i, j :: 0 <= i < j < |ks| ==> ks[i] != ks[j]
  }

  /** `d.get(k)`: the value stored under `k`, if any. */
  function Get<K(==), V>(d: seq<(K, V)>, k: K): (r: Option<V>)
    ensures r.Some? <==> k in Keys(d)
    ensures r.Some? ==> (k, r.value) in d
  {
    if d == [] then None
    else if d[0].0 == k then Some(d[0].1)
    else Get(d[1..], k)
  }

  /** `d[k] = v`. */
  function Set<K(==), V>(d: seq<(K, V)>, k: K, v: V): (r: seq<(K, V)>)
    ensures Keys(r) == if k in Keys(d) then Keys(d) else Keys(d) + [k]
  {
    if d == [] then [(k, v)]
    else if d[0].0 == k then
      var r := [(k, v)] + d[1..];
      assert r[1..] == d[1..];
      assert Keys(r) == Keys(d);
      r
    else
      var rest := Set(d[1..], k, v);
      var r := [d[0]] + rest;
      assert r[1..] == rest;
      assert Keys(d) == [d[0].0] + Keys(d[1..]);
      assert Keys(r) == [d[0].0] + Keys(rest);
      r
  }

  /** After `d[k] = v`, `k` holds `v` and every other key what it held before. */
  lemma {:induction false} SetGet<K, V>(d: seq<(K, V)>, k: K, v: V, k': K)
    ensures Get(Set(d, k, v), k') == if k' == k then Some(v) else Get(d, k')
  {
    if d != [] && d[0].0 != k {
      SetGet(d[1..], k, v, k');
      assert Set(d, k, v)[1..] == Set(d[1..], k, v);
    } else if d != [] {
      assert Set(d, k, v)[1..] == d[1..];
    }
  }

  /** `for k, v in items: d[k] = v`. */
  function Update<K(==), V>(d: seq<(K, V)>, items: seq<(K, V)>): seq<(K, V)>
    decreases |items|
  {
    if items == [] then d else Update(Set(d, items[0].0, items[0].1), items[1..])
  }

  /** `dict(items)`. */
  function FromItems<K(==), V>(items: seq<(K, V)>): seq<(K, V)> {
    Update([], items)
  }

  /** The value of the last pair in `items` whose key is `k`: "later entries win". */
  function LastValue<K(==), V>(items: seq<(K, V)>, k: K): (r: Option<V>)
    ensures r.Some? <==> k in Keys(items)
    ensures r.Some? ==> (k, r.value) in items
  {
    if items == [] then None
    else
      var later := LastValue(items[1..], k);
      if later.Some? then later
      else if items[0].0 == k then Some(items[0].1)
      else None
  }

  /** `later` where it holds a value, `earlier` otherwise. */
  function Override<V>(earlier: Option<V>, later: Option<V>): Option<V> {
    if later.Some? then later else earlier
  }

  /** The keys of `acc`, then those of `ks` not seen before, in order of first appearance. */
  function AddNew<K(==)>(acc: seq<K>, ks: seq<K>): seq<K>
    decreases |ks|
  {
    if ks == [] then acc
    else AddNew(if ks[0] in acc then acc else acc + [ks[0]], ks[1..])
  }

  lemma {:induction false} AddNewMembers<K>(acc: seq<K>, ks: seq<K>, x: K)
    ensures x in AddNew(acc, ks) <==> x in acc || x in ks
    decreases |ks|
  {
    if ks != [] {
      AddNewMembers(if ks[0] in acc then acc else acc + [ks[0]], ks[1..], x);
      assert ks == [ks[0]] + ks[1..];
    }
  }

  lemma {:induction false} AddNewDistinct<K>(acc: seq<K>, ks: seq<K>)
    requires Distinct(acc)
    ensures Distinct(AddNew(acc, ks))
    decreases |ks|
  {
    if ks != [] {
      AddNewDistinct(if ks[0] in acc then acc else acc + [ks[0]], ks[1..]);
    }
  }

  lemma {:induction false} KeysTail<K, V>(d: seq<(K, V)>)
    requires d != []
    ensures Keys(d) == [d[0].0] + Keys(d[1..])
  {
  }

  lemma {:induction false} UpdateKeys<K, V>(d: seq<(K, V)>, items: seq<(K, V)>)
    ensures Keys(Update(d, items)) == AddNew(Keys(d), Keys(items))
    ensures Distinct(Keys(d)) ==> Distinct(Keys(Update(d, items)))
    decreases |items|
  {
    if items != [] {
      KeysTail(items);
      UpdateKeys(Set(d, items[0].0, items[0].1), items[1..]);
    }
    if Distinct(Keys(d)) {
      AddNewDistinct(Keys(d), Keys(items));
    }
  }

  lemma {:induction false} UpdateGet<K, V>(d: seq<(K, V)>, items: seq<(K, V)>, k: K)
    ensures Get(Update(d, items), k) == Override(Get(d, k), LastValue(items, k))
    decreases |items|
  {
    if items != [] {
      UpdateGet(Set(d, items[0].0, items[0].1), items[1..], k);
      SetGet(d, items[0].0, items[0].1, k);
    }
  }

  /** In a dict with distinct keys, the first entry with a key is also the last. */
  lemma {:induction false} DistinctLastValue<K, V>(d: seq<(K, V)>, k: K)
    requires Distinct(Keys(d))
    ensures LastValue(d, k) == Get(d, k)
  {
    if d != [] {
      KeysTail(d);
      assert Distinct(Keys(d[1..]));
      DistinctLastValue(d[1..], k);
      if d[0].0 == k {
        assert k !in Keys(d[1..]);
      }
    }
  }

  /**
   * `dict(items)` keeps each key once, where it first appeared, with the
   * value of its last pair.
   */
  lemma FromItemsSpec<K, V>(items: seq<(K, V)>)
    ensures Distinct(Keys(FromItems(items)))
    ensures Keys(FromItems(items)) == AddNew([], Keys(items))
    ensures forall k :: Get(FromItems(items), k) == LastValue(items, k)
  {
    UpdateKeys([], items);
    forall k
      ensures Get(FromItems(items), k) == LastValue(items, k)
    {
      UpdateGet([], items, k);
    }
  }

  lemma {:induction false} DistinctGetAt<K, V>(d: seq<(K, V)>, i: nat)
    requires Distinct(Keys(d)) && i < |d|
    ensures Get(d, d[i].0) == Some(d[i].1)
  {
    KeysTail(d);
    if i > 0 {
      assert Keys(d)[0] != Keys(d)[i];
      assert Distinct(Keys(d[1..]));
      DistinctGetAt(d[1..], i - 1);
    }
  }

  /** `Get` returns the value of the first entry with the key. */
  lemma {:induction false} GetFirst<K, V>(d: seq<(K, V)>, k: K)
    requires Get(d, k).Some?
    ensures exists i :: 0 <= i < |d| && d[i] == (k, Get(d, k).value) && forall j :: 0 <= j < i ==> d[j].0 != k
  {
    var v := Get(d, k).value;
    if d[0].0 == k {
      assert d[0] == (k, v);
    } else {
      var tail := d[1..];
      assert Get(tail, k) == Get(d, k);
      GetFirst(tail, k);
      var i :| 0 <= i < |tail| && tail[i] == (k, v) && forall j :: 0 <= j < i ==> tail[j].0 != k;
      assert d[i + 1] == (k, v);
      forall j | 0 <= j < i + 1
        ensures d[j].0 != k
      {
        if j > 0 {
          assert d[j] == tail[j - 1];
        }
      }
    }
  }

  /** Looking up the last value in a concatenation: the later part wins. */
  lemma {:induction false} LastValueAppend<K, V>(a: seq<(K, V)>, b: seq<(K, V)>, k: K)
    ensures LastValue(a + b, k) == Override(LastValue(a, k), LastValue(b, k))
    decreases |a|
  {
    if a == [] {
      assert a + b == b;
    } else {
      assert (a + b)[1..] == a[1..] + b;
      LastValueAppend(a[1..], b, k);
    }
  }

  /** `dict(items + [p])` is `dict(items)` followed by one more assignment. */
  lemma {:induction false} UpdateSnoc<K, V>(d: seq<(K, V)>, items: seq<(K, V)>, p: (K, V))
    ensures Update(d, items + [p]) == Set(Update(d, items), p.0, p.1)
    decreases |items|
  {
    if items == [] {
      assert items + [p] == [p];
    } else {
      assert (items + [p])[1..] == items[1..] + [p];
      UpdateSnoc(Set(d, items[0].0, items[0].1), items[1..], p);
    }
  }

  /** The pair at `i` holds the last value of its key when no later pair has that key. */
  lemma {:induction false} LastValueAt<K, V>(items: seq<(K, V)>, i: nat)
    requires i < |items|
    requires forall j :: i < j < |items| ==> items[j].0 != items[i].0
    ensures LastValue(items, items[i].0) == Some(items[i].1)
  {
    if i == 0 {
      assert items[i].0 !in Keys(items[1..]);
    } else {
      LastValueAt(items[1..], i - 1);
    }
  }

  /** `dict(items)` has the keys of `items` and only pairs taken from `items`. */
  lemma FromItemsEntries<K, V>(items: seq<(K, V)>)
    ensures forall k :: k in Keys(FromItems(items)) <==> k in Keys(items)
    ensures forall p :: p in FromItems(items) ==> p in items
  {
    var d := FromItems(items);
    FromItemsSpec(items);
    forall k
      ensures k in Keys(d) <==> k in Keys(items)
    {
      AddNewMembers([], Keys(items), k);
    }
    forall p | p in d
      ensures p in items
    {
      var i :| 0 <= i < |d| && d[i] == p;
      DistinctGetAt(d, i);
      assert LastValue(items, p.0) == Some(p.1);
    }
  }

  /** Appending a pair appends its key. */
  lemma KeysSnoc<K, V>(d: seq<(K, V)>, p: (K, V))
    ensures Keys(d + [p]) == Keys(d) + [p.0]
  {
  }
}
