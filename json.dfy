/** Decoded JSON values as the Python code sees them after `json.loads`, with the subscript,
    membership, `get` and iteration rules of Python's `dict`, `list` and `str`. Objects keep
    their keys in insertion order, as Python dictionaries do. Numbers are integers only. */
module JsonValue {
  import opened Wrappers
  import opened Text

  datatype Json =
    | Null
    | Bool(b: bool)
    | Number(n: int)
    | Str(s: string)
    | Array(items: seq<Json>)
    | Object(entries: seq<(string, Json)>)

  function Keys(entries: seq<(string, Json)>): (ks: seq<string>)
    ensures |ks| == |entries|
    ensures forall i :: 0 <= i < |entries| ==> ks[i] == entries[i].0
  {
    if entries == [] then [] else [entries[0].0] + Keys(entries[1..])
  }

  /** The value stored under `key`: the first entry with that key. */
  function Lookup(entries: seq<(string, Json)>, key: string): (r: Option<Json>)
    ensures r.None? <==> key !in Keys(entries)
    ensures r.Some? ==> exists i :: 0 <= i < |entries| && entries[i] == (key, r.value)
  {
    if entries == [] then None
    else if entries[0].0 == key then Some(entries[0].1)
    else Lookup(entries[1..], key)
  }

  /** `d[key] = value` on a dictionary: an existing key keeps its place, a new one goes last. */
  function Assign(entries: seq<(string, Json)>, key: string, value: Json): (r: seq<(string, Json)>)
    ensures key in Keys(entries) ==> |r| == |entries|
    ensures key !in Keys(entries) ==> r == entries + [(key, value)]
  {
    if entries == [] then [(key, value)]
    else if entries[0].0 == key then [(key, value)] + entries[1..]
    else [entries[0]] + Assign(entries[1..], key, value)
  }

  /** After `d[key] = value`, `d[key]` is `value`. */
  lemma {:induction false} LookupAssignSame(entries: seq<(string, Json)>, key: string, value: Json)
    ensures Lookup(Assign(entries, key, value), key) == Some(value)
  {
    if entries != [] && entries[0].0 != key {
      LookupAssignSame(entries[1..], key, value);
    }
  }

  /** `d[key] = value` leaves every other key's value alone. */
  lemma {:induction false} LookupAssignOther(entries: seq<(string, Json)>, key: string, value: Json, other: string)
    requires other != key
    ensures Lookup(Assign(entries, key, value), other) == Lookup(entries, other)
  {
    if entries != [] && entries[0].0 != key {
      LookupAssignOther(entries[1..], key, value, other);
    }
  }

  /** `d[key] = value` adds `key` and removes no key. */
  lemma {:induction false} KeysAssign(entries: seq<(string, Json)>, key: string, value: Json)
    ensures forall k :: k in Keys(Assign(entries, key, value)) <==> k == key || k in Keys(entries)
  {
    if entries != [] && entries[0].0 != key {
      KeysAssign(entries[1..], key, value);
    }
  }

  /** `j[key]` with a string key: a dictionary lookup, `KeyError` when absent; lists and strings
      want integer indices (`TypeError`); other values are not subscriptable (`TypeError`). */
  function Get(j: Json, key: string): (r: Result<Json>)
    ensures r.Ok? <==> j.Object? && key in Keys(j.entries)
    ensures j.Object? && key !in Keys(j.entries) ==> r == Err(KeyError(key))
    ensures !j.Object? ==> r == Err(TypeError)
  {
    match j
    case Object(entries) =>
      (match Lookup(entries, key)
       case Some(v) => Ok(v)
       case None => Err(KeyError(key)))
    case _ => Err(TypeError)
  }

  /** `j.get(key, default)`: only dictionaries have `get` (`AttributeError` otherwise). */
  function GetOr(j: Json, key: string, default: Json): (r: Result<Json>)
    ensures r.Err? <==> !j.Object?
    ensures j.Object? && key !in Keys(j.entries) ==> r == Ok(default)
    ensures j.Object? && key in Keys(j.entries) ==> r == Get(j, key)
  {
    match j
    case Object(entries) =>
      (match Lookup(entries, key)
       case Some(v) => Ok(v)
       case None => Ok(default))
    case _ => Err(AttributeError)
  }

  /** `key in j` for a string `key`: a key of a dictionary, an element of a list, a substring of
      a string; other values do not support `in` (`TypeError`). */
  function Contains(j: Json, key: string): (r: Result<bool>)
    ensures j.Object? ==> r == Ok(key in Keys(j.entries))
    ensures j.Array? ==> r == Ok(Str(key) in j.items)
    ensures j.Str? ==> r == Ok(Text.Contains(j.s, key))
    ensures r.Err? <==> !(j.Object? || j.Array? || j.Str?)
  {
    match j
    case Object(entries) => Ok(key in Keys(entries))
    case Array(items) => Ok(Str(key) in items)
    case Str(s) => Ok(Text.Contains(s, key))
    case _ => Err(TypeError)
  }

  /** `for x in j`: a list yields its items, a dictionary its keys, a string its characters;
      other values are not iterable (`TypeError`). */
  function Iterate(j: Json): (r: Result<seq<Json>>)
    ensures j.Array? ==> r == Ok(j.items)
    ensures j.Object? ==> r.Ok? && |r.value| == |j.entries| &&
                          forall i :: 0 <= i < |j.entries| ==> r.value[i] == Str(j.entries[i].0)
    ensures j.Str? ==> r.Ok? && |r.value| == |j.s| &&
                       forall i :: 0 <= i < |j.s| ==> r.value[i] == Str([j.s[i]])
    ensures r.Err? <==> !(j.Object? || j.Array? || j.Str?)
  {
    match j
    case Array(items) => Ok(items)
    case Object(entries) => Ok(seq(|entries|, i requires 0 <= i < |entries| => Str(entries[i].0)))
    case Str(s) => Ok(seq(|s|, i requires 0 <= i < |s| => Str([s[i]])))
    case _ => Err(TypeError)
  }

  /** Python truthiness: `None`, `False`, `0` and empty containers are false. */
  predicate Truthy(j: Json) {
    match j
    case Null => false
    case Bool(b) => b
    case Number(n) => n != 0
    case Str(s) => s != []
    case Array(items) => items != []
    case Object(entries) => entries != []
  }

  /** A value used where a `str` is required: anything else raises `TypeError`. */
  function AsString(j: Json): (r: Result<string>)
    ensures r.Ok? <==> j.Str?
    ensures j.Str? ==> r.value == j.s
  {
    if j.Str? then Ok(j.s) else Err(TypeError)
  }
}
