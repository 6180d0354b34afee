/**
 * The values the helpers receive from parsed JSON: dicts with string keys
 * (as the list of their items), lists, strings, integers, booleans and
 * `None`; and the two exceptions that subscripting and iterating them can
 * raise.
 */
module JsonValue {
  import opened Wrappers
  import Dicts

  datatype Value =
    | Dict(entries: seq<(string, Value)>)
    | List(items: seq<Value>)
    | Str(s: string)
    | Int(i: int)
    | Bool(b: bool)
    | Null

  /** `KeyError(key)` for a missing key; `TypeError` for an operation the value does not support. */
  datatype PyError = KeyError(key: string) | TypeError

  /**
   * `v[key]` with a string key: the value of a dict's entry for the key
   * (the first, should a value hold the key twice), a `KeyError` when the
   * dict lacks the key; lists, strings and scalars raise `TypeError`.
   */
  function GetItem(v: Value, key: string): (r: Result<Value, PyError>)
    ensures r.Success? <==> v.Dict? && key in Dicts.Keys(v.entries)
    ensures r.Failure? && v.Dict? ==> r.error == KeyError(key)
    ensures !v.Dict? ==> r == Failure(TypeError)
    ensures r.Success? ==> exists i :: 0 <= i < |v.entries| && v.entries[i] == (key, r.value) && forall j :: 0 <= j < i ==> v.entries[j].0 != key
  {
    if !v.Dict? then Failure(TypeError)
    else match Dicts.Get(v.entries, key)
      case Some(x) => Dicts.GetFirst(v.entries, key); Success(x)
      case None => Failure(KeyError(key))
  }

  /**
   * `for x in v`: the keys of a dict, the items of a list, the characters
   * of a string (each a one-character string); anything else raises
   * `TypeError`.
   */
  function Iterate(v: Value): (r: Result<seq<Value>, PyError>)
    ensures r.Failure? <==> !(v.Dict? || v.List? || v.Str?)
    ensures v.Dict? ==> r.Success? && |r.value| == |v.entries|
    ensures v.Dict? ==> forall i :: 0 <= i < |v.entries| ==> r.value[i] == Str(v.entries[i].0)
    ensures v.List? ==> r == Success(v.items)
    ensures v.Str? ==> r.Success? && |r.value| == |v.s|
    ensures v.Str? ==> forall i :: 0 <= i < |v.s| ==> r.value[i] == Str([v.s[i]])
  {
    match v
    case Dict(es) => Success(seq(|es|, i requires 0 <= i < |es| => Str(es[i].0)))
    case List(xs) => Success(xs)
    case Str(s) => Success(seq(|s|, i requires 0 <= i < |s| => Str([s[i]])))
    case _ => Failure(TypeError)
  }

  /** Dicts and lists are unhashable and cannot be dict keys. */
  predicate Hashable(v: Value) {
    !v.Dict? && !v.List?
  }
}
