/**
 * The two ways `validate_pod` reads a decoded document, with the exceptions
 * Python raises for each: subscription `x[key]` and `x.get(key, default)`.
 */
module PyAccess {
  import opened Wrappers
  import opened JsonValues

  /**
   * Why the correlation id could not be read: the framework could not decode
   * the body (its exception text is kept as it is), a TypeError (the value is
   * not a dict) or a KeyError (the key is absent).
   */
  datatype SubscriptError =
    | Undecodable(reason: string)
    | NotSubscriptable(typeName: string)
    | MissingKey(key: string)

  /** `str(e)` of each exception, in the wording of CPython 3.11 and later. */
  function Describe(e: SubscriptError): string {
    match e
    case Undecodable(reason) => reason
    case NotSubscriptable(t) =>
      if t == "list" then "list indices must be integers or slices, not str"
      else if t == "str" then "string indices must be integers, not 'str'"
      else "'" + t + "' object is not subscriptable"
    case MissingKey(k) => "'" + k + "'"
  }

  /** `j[key]` with a string key. */
  function Subscript(j: Json, key: string): (r: Result<Json, SubscriptError>)
    ensures r.Ok? <==> Reach(j, [key]).Some?
    ensures r.Ok? ==> Reach(j, [key]) == Some(r.value)
    ensures r.Err? ==> (r.error == MissingKey(key) <==> j.Obj?)
    ensures r.Err? && !j.Obj? ==> r.error == NotSubscriptable(TypeName(j))
  {
    if !j.Obj? then Err(NotSubscriptable(TypeName(j)))
    else if key in j.fields then Ok(j.fields[key])
    else Err(MissingKey(key))
  }

  /** The AttributeError raised by `x.get(...)` when `x` is not a dict. */
  datatype AttributeError = NoGet(typeName: string)

  /**
   * `j.get(key, default)`: the stored value when the key is present (whatever
   * it is, `null` included), the default only when it is absent, and an
   * AttributeError when `j` is not a dict.
   */
  function Get(j: Json, key: string, default: Json): (r: Result<Json, AttributeError>)
    ensures r.Err? <==> !j.Obj?
    ensures r.Err? ==> r.error == NoGet(TypeName(j))
    ensures r.Ok? ==> r.value == if Reach(j, [key]).Some? then Reach(j, [key]).value else default
  {
    if !j.Obj? then Err(NoGet(TypeName(j)))
    else if key in j.fields then Ok(j.fields[key])
    else Ok(default)
  }

  /** `j.get(path[0], {}).get(path[1], {})...`: every absent level becomes `{}`. */
  function GetPath(j: Json, path: seq<string>): Result<Json, AttributeError>
    decreases |path|
  {
    if path == [] then Ok(j)
    else match Get(j, path[0], EmptyObj)
      case Err(e) => Err(e)
      case Ok(next) => GetPath(next, path[1..])
  }

  /** The level reached after the first `k` keys of `path` is present and is not a dict. */
  ghost predicate BlockedAt(j: Json, path: seq<string>, k: int) {
    0 <= k < |path| && PresentNonDict(j, path[..k])
  }

  /** Below a missing level everything is `{}`. */
  lemma {:induction false} GetPathOfEmpty(path: seq<string>)
    ensures GetPath(EmptyObj, path) == Ok(EmptyObj)
    decreases |path|
  {
    if path != [] {
      GetPathOfEmpty(path[1..]);
    }
  }

  /**
   * The defaulting lookup against the strict one: it fails exactly when some
   * level before the last is present but not a dict, with the type of that
   * level in the AttributeError; otherwise it yields the value at the end of
   * the path when every level is present, and `{}` when one is absent.
   */
  lemma {:induction false} GetPathSpec(j: Json, path: seq<string>)
    ensures GetPath(j, path).Err? <==> exists k :: BlockedAt(j, path, k)
    ensures forall k :: BlockedAt(j, path, k) ==>
              GetPath(j, path) == Err(NoGet(TypeName(Reach(j, path[..k]).value)))
    ensures GetPath(j, path).Ok? ==>
              GetPath(j, path).value == if Reach(j, path).Some? then Reach(j, path).value else EmptyObj
    decreases |path|
  {
    if path != [] {
      var key, rest := path[0], path[1..];
      assert path[..0] == [];
      if !j.Obj? {
        assert BlockedAt(j, path, 0);
        forall k | BlockedAt(j, path, k) ensures k == 0 {
        }
      } else if key in j.fields {
        var next := j.fields[key];
        GetPathSpec(next, rest);
        forall k | 0 <= k < |rest| ensures Reach(j, path[..k + 1]) == Reach(next, rest[..k]) {
          assert path[..k + 1][0] == key;
          assert path[..k + 1][1..] == rest[..k];
        }
        forall k | BlockedAt(j, path, k) ensures k >= 1 && BlockedAt(next, rest, k - 1) {
          assert k != 0;
        }
        forall k | BlockedAt(next, rest, k) ensures BlockedAt(j, path, k + 1) {
        }
      } else {
        GetPathOfEmpty(rest);
        forall k | 0 < k <= |path| ensures Reach(j, path[..k]) == None {
          assert path[..k][0] == key;
        }
        forall k | BlockedAt(j, path, k) ensures false {
        }
      }
    }
  }
}
