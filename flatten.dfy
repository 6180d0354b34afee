/**
 * `flatten_dict(d, parent_key="", sep="_")` (utilisys/utilisys.py:96-117).
 *
 * The source walks the items of `d` in order and appends pairs to a list:
 * a nested dict contributes the items of its own flattening under the
 * joined key, a list contributes one pair whose value is the `", "`-join
 * of the `str()` of its elements, and any other value contributes itself.
 * The result is `dict(items)`, so a later pair overrides an earlier one
 * with the same key. `str()` is a parameter of the model.
 */
module Flatten {
  import opened Wrappers
  import opened PyStr
  import opened Dicts
  import opened JsonValue

  /** `f"{parent_key}{sep}{k}" if parent_key else k`. */
  function NewKey(parent: string, sep: string, k: string): string {
    if parent != "" then parent + sep + k else k
  }

  /** `map(str, xs)`. */
  function Strs(xs: seq<Value>, str: Value -> string): (r: seq<string>)
    ensures |r| == |xs| && forall i :: 0 <= i < |xs| ==> r[i] == str(xs[i])
  {
    seq(|xs|, i requires 0 <= i < |xs| => str(xs[i]))
  }

  /** The value a non-dict entry contributes: a list becomes the `", "`-join of its elements. */
  function Leaf(v: Value, str: Value -> string): Value {
    if v.List? then Str(Join(", ", Strs(v.items, str))) else v
  }

  /**
   * The pairs that flattening the first `n` entries of `d` appends, with
   * every nested dict expanded in place; nothing is merged yet.
   */
  function Leaves(d: Value, n: nat, parent: string, sep: string, str: Value -> string): seq<(string, Value)>
    requires d.Dict? && n <= |d.entries|
    decreases d, 0, n
  {
    if n == 0 then [] else Leaves(d, n - 1, parent, sep, str) + EntryLeaves(d.entries[n - 1], parent, sep, str)
  }

  /** The pairs one entry `(k, v)` stands for under `parent`. */
  function EntryLeaves(e: (string, Value), parent: string, sep: string, str: Value -> string): seq<(string, Value)>
    decreases e.1, 1, 0
  {
    var key := NewKey(parent, sep, e.0);
    if e.1.Dict? then Leaves(e.1, |e.1.entries|, key, sep, str) else [(key, Leaf(e.1, str))]
  }

  /** All the pairs for `d`. */
  function AllLeaves(d: Value, parent: string, sep: string, str: Value -> string): seq<(string, Value)>
    requires d.Dict?
  {
    Leaves(d, |d.entries|, parent, sep, str)
  }

  /**
   * `flatten_dict`, as the loop the source runs, with the recursive call
   * for nested dicts: the result holds every key once, with the value of
   * the last leaf under that key.
   */
  method FlattenDict(d: Value, parentKey: string, sep: string, str: Value -> string)
    returns (flat: seq<(string, Value)>)
    requires d.Dict?
    ensures Distinct(Keys(flat))
    ensures forall k :: Get(flat, k) == LastValue(AllLeaves(d, parentKey, sep, str), k)
    decreases d, 0
  {
    var items: seq<(string, Value)> := [];
    var i := 0;
    while i < |d.entries|
      invariant 0 <= i <= |d.entries|
      invariant forall k :: LastValue(items, k) == LastValue(Leaves(d, i, parentKey, sep, str), k)
    {
      EntryBelow(d, i);
      var sub := FlattenEntry(d.entries[i], parentKey, sep, str);
      FlattenStep(d, i, parentKey, sep, str, items, sub);
      items := items + sub;
      i := i + 1;
    }
    FlattenResult(d, parentKey, sep, str, items);
    flat := FromItems(items);
  }

  /** After the loop, `dict(items)` has the last value of every leaf key. */
  lemma FlattenResult(d: Value, parent: string, sep: string, str: Value -> string, items: seq<(string, Value)>)
    requires d.Dict?
    requires forall k :: LastValue(items, k) == LastValue(Leaves(d, |d.entries|, parent, sep, str), k)
    ensures Distinct(Keys(FromItems(items)))
    ensures forall k :: Get(FromItems(items), k) == LastValue(AllLeaves(d, parent, sep, str), k)
  {
    FromItemsSpec(items);
  }

  /**
   * The body of the loop for one entry `(k, v)`: the items of the
   * flattened nested dict, the joined list, or the value itself, under the
   * new key.
   */
  method FlattenEntry(e: (string, Value), parentKey: string, sep: string, str: Value -> string)
    returns (sub: seq<(string, Value)>)
    ensures forall k :: LastValue(sub, k) == LastValue(EntryLeaves(e, parentKey, sep, str), k)
    decreases e.1, 1
  {
    var (k, v) := e;
    var newKey := NewKey(parentKey, sep, k);
    if v.Dict? {
      sub := FlattenDict(v, newKey, sep, str);
      forall k' ensures LastValue(sub, k') == Get(sub, k') {
        DistinctLastValue(sub, k');
      }
    } else if v.List? {
      sub := [(newKey, Str(Join(", ", Strs(v.items, str))))];
    } else {
      sub := [(newKey, v)];
    }
  }

  /** An entry's value is structurally below its dict. */
  lemma EntryBelow(d: Value, i: nat)
    requires d.Dict? && i < |d.entries|
    ensures d.entries[i].1 < d
  {
    assert d.entries[i] in d.entries;
  }

  /** One turn of the loop: appending what entry `i` contributes keeps the last values equal to those of the leaves. */
  lemma FlattenStep(d: Value, i: nat, parent: string, sep: string, str: Value -> string,
                    items: seq<(string, Value)>, sub: seq<(string, Value)>)
    requires d.Dict? && i < |d.entries|
    requires forall k :: LastValue(items, k) == LastValue(Leaves(d, i, parent, sep, str), k)
    requires forall k :: LastValue(sub, k) == LastValue(EntryLeaves(d.entries[i], parent, sep, str), k)
    ensures forall k :: LastValue(items + sub, k) == LastValue(Leaves(d, i + 1, parent, sep, str), k)
  {
    var e := d.entries[i];
    assert Leaves(d, i + 1, parent, sep, str) == Leaves(d, i, parent, sep, str) + EntryLeaves(e, parent, sep, str);
    forall k
      ensures LastValue(items + sub, k) == LastValue(Leaves(d, i + 1, parent, sep, str), k)
    {
      LastValueAppend(items, sub, k);
      LastValueAppend(Leaves(d, i, parent, sep, str), EntryLeaves(e, parent, sep, str), k);
    }
  }

  /** No pair carries a dict or a list: those were expanded or joined. */
  lemma {:induction false} LeavesAreFlat(d: Value, n: nat, parent: string, sep: string, str: Value -> string)
    requires d.Dict? && n <= |d.entries|
    ensures forall p :: p in Leaves(d, n, parent, sep, str) ==> !p.1.Dict? && !p.1.List?
    decreases d, 0, n
  {
    if n > 0 {
      LeavesAreFlat(d, n - 1, parent, sep, str);
      EntryLeavesAreFlat(d.entries[n - 1], parent, sep, str);
    }
  }

  lemma {:induction false} EntryLeavesAreFlat(e: (string, Value), parent: string, sep: string, str: Value -> string)
    ensures forall p :: p in EntryLeaves(e, parent, sep, str) ==> !p.1.Dict? && !p.1.List?
    decreases e.1, 1, 0
  {
    if e.1.Dict? {
      LeavesAreFlat(e.1, |e.1.entries|, NewKey(parent, sep, e.0), sep, str);
    }
  }

  /** No value of the result is a dict or a list. */
  lemma FlatHasNoContainers(d: Value, parent: string, sep: string, str: Value -> string, flat: seq<(string, Value)>)
    requires d.Dict?
    requires Distinct(Keys(flat))
    requires forall k :: Get(flat, k) == LastValue(AllLeaves(d, parent, sep, str), k)
    ensures forall p :: p in flat ==> !p.1.Dict? && !p.1.List?
  {
    LeavesAreFlat(d, |d.entries|, parent, sep, str);
    forall p | p in flat
      ensures !p.1.Dict? && !p.1.List?
    {
      var i :| 0 <= i < |flat| && flat[i] == p;
      DistinctGetAt(flat, i);
    }
  }

  /** `a` is a prefix of `b`. */
  predicate IsPrefix(a: string, b: string) {
    |a| <= |b| && b[..|a|] == a
  }

  lemma PrefixTrans(a: string, b: string, c: string)
    requires IsPrefix(a, b) && IsPrefix(b, c)
    ensures IsPrefix(a, c)
  {
    assert c[..|a|] == c[..|b|][..|a|];
  }

  /** Under a non-empty parent key, every flattened key starts with the parent and the separator. */
  lemma {:induction false} LeavesUnder(d: Value, n: nat, parent: string, sep: string, str: Value -> string)
    requires d.Dict? && n <= |d.entries| && parent != ""
    ensures forall p :: p in Leaves(d, n, parent, sep, str) ==> IsPrefix(parent + sep, p.0)
    decreases d, 0, n
  {
    if n > 0 {
      var e := d.entries[n - 1];
      LeavesUnder(d, n - 1, parent, sep, str);
      EntryLeavesUnder(e, parent, sep, str);
      assert IsPrefix(parent + sep, NewKey(parent, sep, e.0)) by {
        assert NewKey(parent, sep, e.0) == (parent + sep) + e.0;
      }
      forall p | p in EntryLeaves(e, parent, sep, str)
        ensures IsPrefix(parent + sep, p.0)
      {
        PrefixTrans(parent + sep, NewKey(parent, sep, e.0), p.0);
      }
    }
  }

  /** Every key an entry `(k, v)` contributes starts with its own new key. */
  lemma {:induction false} EntryLeavesUnder(e: (string, Value), parent: string, sep: string, str: Value -> string)
    ensures forall p :: p in EntryLeaves(e, parent, sep, str) ==> IsPrefix(NewKey(parent, sep, e.0), p.0)
    decreases e.1, 1, 0
  {
    var key := NewKey(parent, sep, e.0);
    if e.1.Dict? && key != "" {
      LeavesUnder(e.1, |e.1.entries|, key, sep, str);
      assert IsPrefix(key, key + sep);
      forall p | p in EntryLeaves(e, parent, sep, str)
        ensures IsPrefix(key, p.0)
      {
        PrefixTrans(key, key + sep, p.0);
      }
    }
  }

  /** The leaves of the first `n` entries depend on those entries only. */
  lemma {:induction false} LeavesPrefix(es: seq<(string, Value)>, es': seq<(string, Value)>, n: nat,
                                        parent: string, sep: string, str: Value -> string)
    requires n <= |es| && n <= |es'| && es[..n] == es'[..n]
    ensures Leaves(Dict(es), n, parent, sep, str) == Leaves(Dict(es'), n, parent, sep, str)
  {
    if n > 0 {
      assert es[..n - 1] == es[..n][..n - 1] && es'[..n - 1] == es'[..n][..n - 1];
      assert es[n - 1] == es[..n][n - 1] && es'[n - 1] == es'[..n][n - 1];
      LeavesPrefix(es, es', n - 1, parent, sep, str);
    }
  }

  /** The leaves of the entries `a + b` are those of `a` followed by those of `b`. */
  lemma {:induction false} LeavesConcat(a: seq<(string, Value)>, b: seq<(string, Value)>,
                                        parent: string, sep: string, str: Value -> string)
    ensures AllLeaves(Dict(a + b), parent, sep, str) == AllLeaves(Dict(a), parent, sep, str) + AllLeaves(Dict(b), parent, sep, str)
    decreases |b|
  {
    if b == [] {
      assert a + b == a;
    } else {
      var m := |b| - 1;
      var b' := b[..m];
      LeavesConcat(a, b', parent, sep, str);
      assert (a + b)[..|a| + m] == a + b';
      assert (a + b')[..|a| + m] == a + b';
      LeavesPrefix(a + b, a + b', |a| + m, parent, sep, str);
      assert b[..m] == b';
      LeavesPrefix(b, b', m, parent, sep, str);
      assert (a + b)[|a| + m] == b[m];
    }
  }

  /** A nested empty dict contributes no key: flattening is as if the entry were absent. */
  lemma EmptyNestedDict(a: seq<(string, Value)>, k: string, b: seq<(string, Value)>,
                        parent: string, sep: string, str: Value -> string)
    ensures AllLeaves(Dict(a + [(k, Dict([]))] + b), parent, sep, str) == AllLeaves(Dict(a + b), parent, sep, str)
  {
    LeavesConcat(a + [(k, Dict([]))], b, parent, sep, str);
    LeavesConcat(a, [(k, Dict([]))], parent, sep, str);
    LeavesConcat(a, b, parent, sep, str);
    var single := Dict([(k, Dict([]))]);
    assert EntryLeaves(single.entries[0], parent, sep, str) == [];
    assert AllLeaves(single, parent, sep, str) == Leaves(single, 0, parent, sep, str) + [];
  }

  /** A last entry that is not a dict decides its key, whatever came before under that key. */
  lemma LastEntryWins(d: Value, parent: string, sep: string, str: Value -> string)
    requires d.Dict? && d.entries != [] && !d.entries[|d.entries| - 1].1.Dict?
    ensures var e := d.entries[|d.entries| - 1];
            LastValue(AllLeaves(d, parent, sep, str), NewKey(parent, sep, e.0)) == Some(Leaf(e.1, str))
  {
    var n := |d.entries|;
    var e := d.entries[n - 1];
    var key := NewKey(parent, sep, e.0);
    assert EntryLeaves(e, parent, sep, str) == [(key, Leaf(e.1, str))];
    assert AllLeaves(d, parent, sep, str) == Leaves(d, n - 1, parent, sep, str) + EntryLeaves(e, parent, sep, str);
    LastValueAppend(Leaves(d, n - 1, parent, sep, str), [(key, Leaf(e.1, str))], key);
  }

  /** A list becomes the `", "`-join of the `str()` of its elements. */
  lemma ListIsJoined(v: Value, str: Value -> string)
    requires v == List([Str("x"), Int(2)])
    requires str(Str("x")) == "x" && str(Int(2)) == "2"
    ensures Leaf(v, str) == Str("x, 2")
  {
    assert Strs(v.items, str) == ["x", "2"];
    assert Join(", ", ["x", "2"]) == "x" + ", " + "2";
  }

  /**
   * Key collision: a nested dict flattened to a key that an earlier entry
   * used overrides it, `{"a_b": 2, "a": {"b": 1}}` giving `{"a_b": 1}`.
   */
  lemma NestedKeyCollision(d: Value, str: Value -> string)
    requires d == Dict([("a_b", Int(2)), ("a", Dict([("b", Int(1))]))])
    ensures AllLeaves(d, "", "_", str) == [("a_b", Int(2)), ("a_b", Int(1))]
  {
    var inner := d.entries[1].1;
    assert NewKey("a", "_", "b") == "a_b";
    assert EntryLeaves(inner.entries[0], "a", "_", str) == [("a_b", Int(1))];
    assert AllLeaves(inner, "a", "_", str) == [("a_b", Int(1))];
    assert EntryLeaves(d.entries[0], "", "_", str) == [("a_b", Int(2))];
  }
}
