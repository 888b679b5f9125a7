/** Decoded JSON values as the Python program sees them after `json.load`:
    objects are dicts (insertion-ordered, distinct keys), arrays are lists.
    The functions here are the handful of Python built-ins the tool applies to
    such values: truthiness, `dict.get`, and iteration. */
module Json {
  import opened Base

  datatype Json =
    | Null
    | Bool(b: bool)
    | Num(n: int)
    | Str(s: string)
    | Arr(items: seq<Json>)
    | Obj(fields: seq<(string, Json)>)

  /** Python's `bool(v)`: `None`, `False`, `0`, `""`, `[]` and `{}` are false. */
  predicate Truthy(v: Json) {
    match v
    case Null => false
    case Bool(b) => b
    case Num(n) => n != 0
    case Str(s) => s != []
    case Arr(a) => a != []
    case Obj(f) => f != []
  }

  /** `key in d` for a decoded object. */
  predicate HasField(fields: seq<(string, Json)>, key: string) {
    exists i :: 0 <= i < |fields| && fields[i].0 == key
  }

  /** `d[key]` when present, `None` when the key is missing. */
  function Lookup(fields: seq<(string, Json)>, key: string): (r: Option<Json>)
    ensures r.Some? <==> HasField(fields, key)
    ensures r.Some? ==> exists i :: 0 <= i < |fields| && fields[i] == (key, r.value)
  {
    if fields == [] then None
    else if fields[0].0 == key then Some(fields[0].1)
    else
      var r := Lookup(fields[1..], key);
      assert r.Some? ==> exists i :: 0 <= i < |fields[1..]| && fields[1..][i] == (key, r.value);
      r
  }

  /** `d.get(key)`: a missing key reads as `None`. */
  function GetField(fields: seq<(string, Json)>, key: string): Json {
    match Lookup(fields, key)
    case Some(v) => v
    case None => Null
  }

  /** `d.get(key, default)` */
  function GetFieldOr(fields: seq<(string, Json)>, key: string, default: Json): Json {
    match Lookup(fields, key)
    case Some(v) => v
    case None => default
  }

  /** The keys of a decoded object, in order (`list(d.keys())`). */
  function FieldNames(fields: seq<(string, Json)>): (names: seq<string>)
    ensures |names| == |fields|
    ensures forall i :: 0 <= i < |fields| ==> names[i] == fields[i].0
  {
    seq(|fields|, i requires 0 <= i < |fields| => fields[i].0)
  }

  /** What `iter(v)` yields: list items, one-character strings, or dict keys;
      `None` when `v` is not iterable (`None`, booleans, numbers). */
  function Iterate(v: Json): (r: Option<seq<Json>>)
    ensures r.None? <==> v.Null? || v.Bool? || v.Num?
    ensures v.Arr? ==> r == Some(v.items)
    ensures v.Str? ==> r.Some? && |r.value| == |v.s|
                       && forall i :: 0 <= i < |v.s| ==> r.value[i] == Str([v.s[i]])
    ensures v.Obj? ==> r.Some? && |r.value| == |v.fields|
                       && forall i :: 0 <= i < |v.fields| ==> r.value[i] == Str(v.fields[i].0)
  {
    match v
    case Arr(a) => Some(a)
    case Str(s) => Some(seq(|s|, i requires 0 <= i < |s| => Str([s[i]])))
    case Obj(f) => Some(seq(|f|, i requires 0 <= i < |f| => Str(f[i].0)))
    case _ => None
  }

  /** The strings of a list of strings, wrapped as JSON values. */
  function Strs(ss: seq<string>): (r: seq<Json>)
    ensures |r| == |ss|
    ensures forall i :: 0 <= i < |ss| ==> r[i] == Str(ss[i])
  {
    seq(|ss|, i requires 0 <= i < |ss| => Str(ss[i]))
  }
}
