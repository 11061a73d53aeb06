/** The untyped configuration tree that the loader builds from a YAML document,
    from environment variables and from caller overrides, before the schema
    validates it; the errors the loader raises; and the environment snapshot. */
module ConfigTree {

  /** A YAML scalar other than a string. Floats, dates and the like are kept
      as their text: nothing in the loader looks inside them. */
  datatype Scalar = Null | Bool(b: bool) | Int(n: int) | Other(text: string)

  /** A parsed YAML value: a string, another scalar, a list or a mapping. */
  datatype Tree =
    | Str(s: string)
    | Scalar(v: Scalar)
    | List(items: seq<Tree>)
    | Map(entries: map<string, Tree>)

  /** The exceptions raised on the way from a file to an `AppConfig`. */
  datatype Error =
    | NotFound                                  // FileNotFoundError, allow_missing=False
    | Unreadable(path: string)                  // open() or yaml.safe_load failed
    | NotAMapping(path: string)                 // top-level YAML is not a mapping
    | EmptySeparator                            // str.split with an empty delimiter
    | NothingToUnpack                           // `*parents, last = []`
    | NestConflict(key: string)                 // "Cannot nest into non-dict at {k}"
    | NotAModel(location: seq<string>)          // a model field given a non-mapping
    | ExtraFields(location: seq<string>, keys: set<string>)  // extra="forbid"
    | NotAPath(location: seq<string>)           // `credentials` is not path-like

  datatype Result<T> = Ok(value: T) | Err(error: Error) {
    predicate IsFailure() { Err? }

    function PropagateFailure<U>(): Result<U>
      requires Err?
    {
      Err(error)
    }

    function Extract(): T
      requires Ok?
    {
      value
    }
  }

  datatype Option<T> = None | Some(value: T)

  /** A snapshot of `os.environ`, in its iteration order. The names in
      `os.environ` are unique; the type does not enforce it, and for a list
      with repeated names `Lookup` takes the first entry while the override
      fold lets the last one win. */
  type Env = seq<(string, string)>

  /** `os.getenv(name)`: the value of the first variable with that name. */
  function Lookup(env: Env, name: string): (r: Option<string>)
    ensures r.Some? <==> exists i :: 0 <= i < |env| && env[i].0 == name
    ensures r.Some? ==> (name, r.value) in env
  {
    if env == [] then None
    else if env[0].0 == name then Some(env[0].1)
    else
      var r := Lookup(env[1..], name);
      assert forall i :: 1 <= i < |env| ==> env[i] == env[1..][i - 1];
      r
  }

  /** The value reached by following the key path `p` through nested
      mappings, if there is one. */
  function GetAt(m: map<string, Tree>, p: seq<string>): Option<Tree>
    requires p != []
    decreases |p|
  {
    if p[0] !in m then None
    else if |p| == 1 then Some(m[p[0]])
    else if m[p[0]].Map? then GetAt(m[p[0]].entries, p[1..])
    else None
  }
}
