/** Decoded JSON documents, as Python's `json` module hands them to the webhook. */
module JsonValues {
  import opened Wrappers

  /** A JSON value. Objects become Python dicts, arrays lists, numbers `int` or `float`. */
  datatype Json =
    | Null
    | Bool(b: bool)
    | Int(i: int)
    | Float(r: real)
    | Str(s: string)
    | Arr(items: seq<Json>)
    | Obj(fields: map<string, Json>)

  /** The literal `{}` used as a default at every level of the label lookup. */
  const EmptyObj: Json := Obj(map[])

  /** The name of the Python type a decoded value has, as exception texts print it. */
  function TypeName(j: Json): string {
    match j
    case Null => "NoneType"
    case Bool(_) => "bool"
    case Int(_) => "int"
    case Float(_) => "float"
    case Str(_) => "str"
    case Arr(_) => "list"
    case Obj(_) => "dict"
  }

  /**
   * Strict lookup along a path of keys: the value found when every level is a
   * dict holding the next key, and None as soon as one level is missing or is
   * not a dict. This is the reference against which the defaulting accessors
   * of the webhook are described.
   */
  function Reach(j: Json, path: seq<string>): Option<Json>
    decreases |path|
  {
    if path == [] then Some(j)
    else if j.Obj? && path[0] in j.fields then Reach(j.fields[path[0]], path[1..])
    else None
  }

  /** The value at `path` exists and is not a dict. */
  predicate PresentNonDict(j: Json, path: seq<string>) {
    Reach(j, path).Some? && !Reach(j, path).value.Obj?
  }

  /** The string `s` occurs somewhere in `j`, as a string value. */
  ghost predicate Mentions(j: Json, s: string) {
    match j
    case Str(t) => t == s
    case Arr(items) => exists i :: 0 <= i < |items| && Mentions(items[i], s)
    case Obj(fields) => exists k :: k in fields && Mentions(fields[k], s)
    case _ => false
  }

  /** Looking up `p + q` is looking up `p`, then `q` in what was found. */
  lemma {:induction false} ReachAppend(j: Json, p: seq<string>, q: seq<string>)
    ensures Reach(j, p + q) == if Reach(j, p).Some? then Reach(Reach(j, p).value, q) else None
    decreases |p|
  {
    if p == [] {
      assert p + q == q;
    } else {
      assert (p + q)[0] == p[0];
      assert (p + q)[1..] == p[1..] + q;
      if j.Obj? && p[0] in j.fields {
        ReachAppend(j.fields[p[0]], p[1..], q);
      }
    }
  }
}
