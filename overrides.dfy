/** `env_overrides` and `_insert_nested`: environment variables named
    `<prefix><delimiter>A<delimiter>B...` become string leaves at the key path
    `a.b...` of an override tree. */
module EnvironmentOverrides {
  import opened ConfigTree

  // ---------------------------------------------------------------------
  // String helpers: str.startswith, str.split, str.strip, str.lower
  // ---------------------------------------------------------------------

  predicate StartsWith(s: string, prefix: string)
  {
    |prefix| <= |s| && s[..|prefix|] == prefix
  }

  /** `d` occurs in `s` at index `i`. */
  predicate OccursAt(s: string, d: string, i: nat)
  {
    i + |d| <= |s| && s[i..i + |d|] == d
  }

  /** `s.find(d)`: the index of the first occurrence of `d` in `s`. */
  function Find(s: string, d: string): (r: Option<nat>)
    requires d != []
    ensures r.Some? ==> OccursAt(s, d, r.value)
    ensures forall i: nat :: OccursAt(s, d, i) ==> r.Some? && r.value <= i
    decreases |s|
  {
    if |s| < |d| then None
    else if s[..|d|] == d then Some(0)
    else
      var r := Find(s[1..], d);
      assert forall i: nat :: OccursAt(s, d, i + 1) <==> OccursAt(s[1..], d, i) by {
        forall i: nat ensures OccursAt(s, d, i + 1) <==> OccursAt(s[1..], d, i) {
          if i + 1 + |d| <= |s| { assert s[1..][i..i + |d|] == s[i + 1..i + 1 + |d|]; }
        }
      }
      assert forall i: nat :: OccursAt(s, d, i) && i > 0 ==> OccursAt(s[1..], d, i - 1) by {
        forall i: nat | OccursAt(s, d, i) && i > 0 ensures OccursAt(s[1..], d, i - 1) {
          assert OccursAt(s, d, (i - 1) + 1);
        }
      }
      match r
      case None => None
      case Some(i) => Some(i + 1)
  }

  /** `s.split(d)` for a non-empty separator: the pieces between successive
      left-to-right occurrences of `d`. */
  function Split(s: string, d: string): (parts: seq<string>)
    requires d != []
    ensures |parts| >= 1
    decreases |s|
  {
    match Find(s, d)
    case None => [s]
    case Some(i) => [s[..i]] + Split(s[i + |d|..], d)
  }

  /** `d.join(parts)`. */
  function Join(parts: seq<string>, d: string): string
    requires |parts| >= 1
  {
    if |parts| == 1 then parts[0] else parts[0] + d + Join(parts[1..], d)
  }

  lemma JoinCons(first: string, rest: seq<string>, d: string)
    requires |rest| >= 1
    ensures Join([first] + rest, d) == first + d + Join(rest, d)
  {
    assert ([first] + rest)[1..] == rest;
  }

  /** Joining the pieces of a split with the separator gives the string back. */
  lemma {:induction false} SplitJoin(s: string, d: string)
    requires d != []
    ensures Join(Split(s, d), d) == s
    decreases |s|
  {
    match Find(s, d)
    case None =>
      assert Split(s, d) == [s];
    case Some(i) =>
      var rest := s[i + |d|..];
      assert Split(s, d) == [s[..i]] + Split(rest, d);
      SplitJoin(rest, d);
      JoinCons(s[..i], Split(rest, d), d);
      AroundOccurrence(s, d, i);
  }

  /** `s` is what comes before an occurrence of `d`, then `d`, then the rest. */
  lemma AroundOccurrence(s: string, d: string, i: nat)
    requires OccursAt(s, d, i)
    ensures s == s[..i] + d + s[i + |d|..]
  {
    assert s == s[..i] + s[i..i + |d|] + s[i + |d|..];
  }

  /** Splitting on `__` a name that starts with an underscore-free word. */
  lemma SplitAtDoubleUnderscore(a: string, b: string)
    requires '_' !in a
    ensures Split(a + "__" + b, "__") == [a] + Split(b, "__")
  {
    var s := a + "__" + b;
    assert OccursAt(s, "__", |a|) by { assert s[|a|..|a| + 2] == "__"; }
    forall i: nat | i < |a| ensures !OccursAt(s, "__", i) {
      assert s[i..i + 2][0] == a[i];
    }
    assert Find(s, "__") == Some(|a|);
    assert s[..|a|] == a && s[|a| + 2..] == b;
  }

  /** An underscore-free word is not split on `__`. */
  lemma SplitWithoutUnderscore(a: string)
    requires '_' !in a
    ensures Split(a, "__") == [a]
  {
    forall i: nat | i + 2 <= |a| ensures !OccursAt(a, "__", i) {
      assert a[i..i + 2][0] == a[i];
    }
    assert Find(a, "__") == None;
  }

  /** Whitespace for `str.strip()`: the characters for which `str.isspace`
      holds. */
  predicate IsSpace(c: char)
  {
    c == ' ' || ('\t' <= c <= '\r') || ('\U{1C}' <= c <= '\U{1F}') || c == '\U{85}' || c == '\U{A0}'
    || c == '\U{1680}' || ('\U{2000}' <= c <= '\U{200A}') || c == '\U{2028}' || c == '\U{2029}'
    || c == '\U{202F}' || c == '\U{205F}' || c == '\U{3000}'
  }

  function LeadingSpaces(s: string): (n: nat)
    ensures n <= |s|
    ensures forall i :: 0 <= i < n ==> IsSpace(s[i])
    ensures n < |s| ==> !IsSpace(s[n])
  {
    if s != [] && IsSpace(s[0]) then 1 + LeadingSpaces(s[1..]) else 0
  }

  function TrailingSpaces(s: string): (n: nat)
    ensures n <= |s|
    ensures forall i :: |s| - n <= i < |s| ==> IsSpace(s[i])
    ensures n < |s| ==> !IsSpace(s[|s| - n - 1])
  {
    if s != [] && IsSpace(s[|s| - 1]) then 1 + TrailingSpaces(s[..|s| - 1]) else 0
  }

  /** `s.strip()`: `s` without its leading and trailing whitespace. */
  function Strip(s: string): (r: string)
    ensures r == [] || (!IsSpace(r[0]) && !IsSpace(r[|r| - 1]))
  {
    var a := LeadingSpaces(s);
    var t := s[a..];
    t[..|t| - TrailingSpaces(t)]
  }

  /** `strip` removes whitespace from the two ends and nothing else. */
  lemma StripRemovesOuterSpace(s: string)
    ensures exists i, j :: 0 <= i <= j <= |s| && Strip(s) == s[i..j]
                         && (forall k :: 0 <= k < i ==> IsSpace(s[k]))
                         && (forall k :: j <= k < |s| ==> IsSpace(s[k]))
  {
    var a := LeadingSpaces(s);
    var t := s[a..];
    var b := TrailingSpaces(t);
    assert t[..|t| - b] == s[a..|s| - b];
    assert forall k :: |s| - b <= k < |s| ==> s[k] == t[k - a];
  }

  /** A string with no whitespace at either end is its own `strip`. */
  lemma StripWithoutSpace(s: string)
    requires s != [] && !IsSpace(s[0]) && !IsSpace(s[|s| - 1])
    ensures Strip(s) == s
  {
    assert LeadingSpaces(s) == 0;
    assert TrailingSpaces(s) == 0;
  }

  /** `c.lower()` for ASCII letters. */
  function LowerChar(c: char): char
  {
    if 'A' <= c <= 'Z' then (c - 'A' + 'a') as char else c
  }

  /** `s.lower()`, character by character. */
  function Lower(s: string): (r: string)
    ensures |r| == |s|
    ensures forall i :: 0 <= i < |s| ==> r[i] == LowerChar(s[i])
  {
    seq(|s|, i requires 0 <= i < |s| => LowerChar(s[i]))
  }

  /** A key segment as `env_overrides` produces it: non-empty, without
      surrounding whitespace, without ASCII capitals. */
  predicate IsNormalSegment(seg: string)
  {
    seg != [] && !IsSpace(seg[0]) && !IsSpace(seg[|seg| - 1])
    && forall i :: 0 <= i < |seg| ==> !('A' <= seg[i] <= 'Z')
  }

  /** `[p.strip().lower() for p in parts if p.strip()]`. */
  function Normalize(parts: seq<string>): (segs: seq<string>)
    ensures |segs| <= |parts|
    ensures forall i :: 0 <= i < |segs| ==> IsNormalSegment(segs[i])
  {
    if parts == [] then []
    else
      var t := Strip(parts[0]);
      var rest := Normalize(parts[1..]);
      if t == [] then rest
      else
        LowerStripIsNormal(parts[0]);
        [Lower(t)] + rest
  }

  lemma LowerStripIsNormal(p: string)
    requires Strip(p) != []
    ensures IsNormalSegment(Lower(Strip(p)))
  {
  }

  /** Normalising pieces one after another: the segments of `a + b` are
      those of `a` followed by those of `b`. */
  lemma {:induction false} NormalizeAppend(a: seq<string>, b: seq<string>)
    ensures Normalize(a + b) == Normalize(a) + Normalize(b)
  {
    if a == [] {
      assert a + b == b;
    } else {
      assert (a + b)[0] == a[0] && (a + b)[1..] == a[1..] + b;
      NormalizeAppend(a[1..], b);
    }
  }

  /** A single piece: dropped when blank, otherwise stripped and lowered. */
  lemma NormalizeSingle(p: string)
    ensures Normalize([p]) == if Strip(p) == [] then [] else [Lower(Strip(p))]
  {
    assert [p][1..] == [];
  }

  /** A name yields no segment exactly when every piece is blank. */
  lemma {:induction false} NormalizeEmptyIff(parts: seq<string>)
    ensures Normalize(parts) == [] <==> forall i :: 0 <= i < |parts| ==> Strip(parts[i]) == []
  {
    if parts != [] {
      NormalizeEmptyIff(parts[1..]);
      assert forall i :: 1 <= i < |parts| ==> parts[i] == parts[1..][i - 1];
    }
  }

  /** The key path of a variable named `name` once `fullPrefix` is removed. */
  function Segments(name: string, fullPrefix: string, delimiter: string): seq<string>
    requires StartsWith(name, fullPrefix) && delimiter != []
  {
    Normalize(Split(name[|fullPrefix|..], delimiter))
  }

  // ---------------------------------------------------------------------
  // _insert_nested
  // ---------------------------------------------------------------------

  /** What `_insert_nested(d, keys, value)` leaves in `d`: intermediate
      mappings are created where a key is missing, an intermediate key that
      holds a non-mapping is an error, and the last key is overwritten
      whatever it held. */
  function Insert(d: map<string, Tree>, keys: seq<string>, value: Tree): Result<map<string, Tree>>
    decreases |keys|
  {
    if keys == [] then Err(NothingToUnpack)
    else if |keys| == 1 then Ok(d[keys[0] := value])
    else
      var k := keys[0];
      var child := if k in d then d[k] else Map(map[]);
      if !child.Map? then Err(NestConflict(k))
      else
        match Insert(child.entries, keys[1..], value)
        case Err(e) => Err(e)
        case Ok(sub) => Ok(d[k := Map(sub)])
  }

  /** `_insert_nested` as written: the cursor `curr` walks down through
      `setdefault`, then `curr[last] = value`. Mappings are values here, so
      the cursor is the chain of mappings it visited, and the final loop
      writes the changed mappings back into their parents, which is what
      sharing `curr` with `d` does in place. */
  method InsertNested(d: map<string, Tree>, keys: seq<string>, value: Tree) returns (r: Result<map<string, Tree>>)
    ensures r == Insert(d, keys, value)
  {
    if keys == [] {
      return Err(NothingToUnpack);
    }
    var parents, last := keys[..|keys| - 1], keys[|keys| - 1];
    var cursors := [d];
    var i := 0;
    while i < |parents|
      invariant 0 <= i <= |parents|
      invariant |cursors| == i + 1 && cursors[0] == d
      invariant forall j :: 0 <= j < i ==> Descends(cursors[j], parents[j], cursors[j + 1])
      invariant Insert(cursors[i], keys[i..], value).Err? ==> Insert(d, keys, value) == Insert(cursors[i], keys[i..], value)
    {
      var k := parents[i];
      var curr := if k in cursors[i] then cursors[i][k] else Map(map[]);
      assert keys[i..][0] == k && keys[i..][1..] == keys[i + 1..];
      if !curr.Map? {
        ConflictStops(cursors[i], keys[i..], value);
        return Err(NestConflict(k));
      }
      DescentKeepsError(cursors[i], keys[i..], value, curr.entries);
      cursors := cursors + [curr.entries];
      i := i + 1;
    }
    var acc := cursors[i][last := value];
    assert keys[i..] == [last];
    while i > 0
      invariant 0 <= i <= |parents|
      invariant Insert(cursors[i], keys[i..], value) == Ok(acc)
    {
      i := i - 1;
      assert keys[i..][0] == parents[i] && keys[i..][1..] == keys[i + 1..];
      AscentWritesBack(cursors[i], keys[i..], value, cursors[i + 1], acc);
      acc := cursors[i][parents[i] := Map(acc)];
    }
    return Ok(acc);
  }

  /** `setdefault(k, {})` on `c` yields the mapping `next`. */
  predicate Descends(c: map<string, Tree>, k: string, next: map<string, Tree>)
  {
    (k !in c || c[k].Map?) && next == (if k in c then c[k].entries else map[])
  }

  /** A non-mapping under the first of several keys stops the insertion. */
  lemma ConflictStops(c: map<string, Tree>, keys: seq<string>, value: Tree)
    requires |keys| >= 2 && keys[0] in c && !c[keys[0]].Map?
    ensures Insert(c, keys, value) == Err(NestConflict(keys[0]))
  {
  }

  /** An error further down is the error of the whole insertion. */
  lemma DescentKeepsError(c: map<string, Tree>, keys: seq<string>, value: Tree, next: map<string, Tree>)
    requires |keys| >= 2 && Descends(c, keys[0], next)
    ensures Insert(next, keys[1..], value).Err? ==> Insert(c, keys, value) == Insert(next, keys[1..], value)
  {
  }

  /** A success further down is written back under the first key. */
  lemma AscentWritesBack(c: map<string, Tree>, keys: seq<string>, value: Tree, next: map<string, Tree>,
                         sub: map<string, Tree>)
    requires |keys| >= 2 && Descends(c, keys[0], next) && Insert(next, keys[1..], value) == Ok(sub)
    ensures Insert(c, keys, value) == Ok(c[keys[0] := Map(sub)])
  {
  }

  /** After a successful insertion the value sits at the key path. */
  lemma {:induction false} InsertPlacesValue(d: map<string, Tree>, keys: seq<string>, value: Tree)
    requires Insert(d, keys, value).Ok?
    ensures keys != [] && GetAt(Insert(d, keys, value).value, keys) == Some(value)
    decreases |keys|
  {
    if |keys| > 1 {
      var k := keys[0];
      var child := if k in d then d[k] else Map(map[]);
      InsertPlacesValue(child.entries, keys[1..], value);
    }
  }

  /** `p` and `q` part ways: they differ at some index both have. */
  predicate Diverge(p: seq<string>, q: seq<string>)
  {
    exists i :: 0 <= i < |p| && i < |q| && p[i] != q[i]
  }

  /** Inserting at one key path leaves every path that parts ways with it
      as it was. */
  lemma {:induction false} InsertLeavesOtherPaths(d: map<string, Tree>, keys: seq<string>, value: Tree, p: seq<string>)
    requires Insert(d, keys, value).Ok?
    requires p != [] && Diverge(p, keys)
    ensures GetAt(Insert(d, keys, value).value, p) == GetAt(d, p)
    decreases |keys|
  {
    var i :| 0 <= i < |p| && i < |keys| && p[i] != keys[i];
    if i > 0 {
      var k := keys[0];
      var child := if k in d then d[k] else Map(map[]);
      assert p[1..][i - 1] != keys[1..][i - 1];
      InsertLeavesOtherPaths(child.entries, keys[1..], value, p[1..]);
    }
  }

  /** `_insert_nested` fails exactly when the key list is empty or one of the
      intermediate key paths already holds something other than a mapping. */
  lemma {:induction false} InsertFailsIff(d: map<string, Tree>, keys: seq<string>, value: Tree)
    ensures Insert(d, keys, value).Err? <==>
              keys == [] ||
              exists j :: 1 <= j < |keys| && GetAt(d, keys[..j]).Some? && !GetAt(d, keys[..j]).value.Map?
    decreases |keys|
  {
    if |keys| > 1 {
      var k := keys[0];
      var child := if k in d then d[k] else Map(map[]);
      assert keys[..1] == [k];
      if child.Map? {
        InsertFailsIff(child.entries, keys[1..], value);
        forall j | 2 <= j < |keys|
          ensures GetAt(d, keys[..j]) == GetAt(child.entries, keys[1..][..j - 1])
        {
          assert keys[..j][1..] == keys[1..][..j - 1];
        }
        if Insert(d, keys, value).Err? {
          var j :| 1 <= j < |keys| - 1 && GetAt(child.entries, keys[1..][..j]).Some?
                   && !GetAt(child.entries, keys[1..][..j]).value.Map?;
          assert GetAt(d, keys[..j + 1]) == GetAt(child.entries, keys[1..][..j]);
        }
        if exists j :: 1 <= j < |keys| && GetAt(d, keys[..j]).Some? && !GetAt(d, keys[..j]).value.Map? {
          var j :| 1 <= j < |keys| && GetAt(d, keys[..j]).Some? && !GetAt(d, keys[..j]).value.Map?;
          assert j >= 2;
          assert GetAt(child.entries, keys[1..][..j - 1]) == GetAt(d, keys[..j]);
        }
      } else {
        assert GetAt(d, keys[..1]) == Some(child);
      }
    }
  }

  /** Every leaf of the tree is a string from `values`. */
  predicate LeavesAmong(m: map<string, Tree>, values: set<string>)
    decreases Map(m)
  {
    forall k :: k in m ==>
      (m[k].Str? && m[k].s in values) || (m[k].Map? && LeavesAmong(m[k].entries, values))
  }

  lemma {:induction false} InsertKeepsLeavesAmong(d: map<string, Tree>, keys: seq<string>, v: string, values: set<string>)
    requires LeavesAmong(d, values) && v in values
    requires Insert(d, keys, Str(v)).Ok?
    ensures LeavesAmong(Insert(d, keys, Str(v)).value, values)
    decreases |keys|
  {
    if |keys| > 1 {
      var k := keys[0];
      var child := if k in d then d[k] else Map(map[]);
      InsertKeepsLeavesAmong(child.entries, keys[1..], v, values);
    }
  }

  // ---------------------------------------------------------------------
  // env_overrides
  // ---------------------------------------------------------------------

  /** One iteration of the loop in `env_overrides`, on variable `name`. */
  function Step(acc: map<string, Tree>, name: string, value: string, fullPrefix: string, delimiter: string)
    : Result<map<string, Tree>>
  {
    if !StartsWith(name, fullPrefix) then Ok(acc)
    else if delimiter == [] then Err(EmptySeparator)
    else
      var segs := Segments(name, fullPrefix, delimiter);
      if segs == [] then Ok(acc) else Insert(acc, segs, Str(value))
  }

  /** The loop of `env_overrides` over `env`, starting from `acc`. */
  function Fold(acc: map<string, Tree>, env: Env, fullPrefix: string, delimiter: string)
    : Result<map<string, Tree>>
    decreases |env|
  {
    if env == [] then Ok(acc)
    else
      match Step(acc, env[0].0, env[0].1, fullPrefix, delimiter)
      case Err(e) => Err(e)
      case Ok(next) => Fold(next, env[1..], fullPrefix, delimiter)
  }

  /** The tree `env_overrides(prefix, delimiter)` returns, or its error. */
  function Overrides(env: Env, prefix: string, delimiter: string): Result<map<string, Tree>>
  {
    Fold(map[], env, prefix + delimiter, delimiter)
  }

  /** `env_overrides` as written: one pass over the environment that skips
      non-matching or empty names and inserts each value at its path. */
  method EnvOverrides(env: Env, prefix: string, delimiter: string) returns (r: Result<map<string, Tree>>)
    ensures r == Overrides(env, prefix, delimiter)
  {
    var result: map<string, Tree> := map[];
    var fullPrefix := prefix + delimiter;
    for i := 0 to |env|
      invariant Overrides(env, prefix, delimiter) == Fold(result, env[i..], fullPrefix, delimiter)
    {
      assert env[i..][0] == env[i] && env[i..][1..] == env[i + 1..];
      var (name, value) := env[i];
      if !StartsWith(name, fullPrefix) {
        continue;
      }
      if delimiter == [] {
        return Err(EmptySeparator);
      }
      var parts := Split(name[|fullPrefix|..], delimiter);
      var normParts := Normalize(parts);
      if normParts == [] {
        continue;
      }
      var inserted := InsertNested(result, normParts, Str(value));
      if inserted.Err? {
        return Err(inserted.error);
      }
      result := inserted.value;
    }
    assert env[|env|..] == [];
    return Ok(result);
  }

  /** The loop over `env + [e]` is the loop over `env` followed by one more
      step. */
  lemma {:induction false} FoldAppend(acc: map<string, Tree>, env: Env, e: (string, string), fullPrefix: string, delimiter: string)
    ensures Fold(acc, env + [e], fullPrefix, delimiter) ==
              match Fold(acc, env, fullPrefix, delimiter)
              case Err(err) => Err(err)
              case Ok(a) => Step(a, e.0, e.1, fullPrefix, delimiter)
    decreases |env|
  {
    if env == [] {
      assert [e][1..] == [];
    } else {
      assert (env + [e])[1..] == env[1..] + [e];
      match Step(acc, env[0].0, env[0].1, fullPrefix, delimiter)
      case Err(_) =>
      case Ok(next) => FoldAppend(next, env[1..], e, fullPrefix, delimiter);
    }
  }

  /** The variables whose names start with `fullPrefix`, in order. */
  function Matching(env: Env, fullPrefix: string): (r: Env)
    ensures forall i :: 0 <= i < |r| ==> StartsWith(r[i].0, fullPrefix) && r[i] in env
  {
    if env == [] then []
    else
      var rest := Matching(env[1..], fullPrefix);
      if StartsWith(env[0].0, fullPrefix) then [env[0]] + rest else rest
  }

  /** Only variables whose names start with `prefix + delimiter` contribute:
      dropping all the others changes nothing. */
  lemma {:induction false} OnlyMatchingContribute(acc: map<string, Tree>, env: Env, fullPrefix: string, delimiter: string)
    ensures Fold(acc, env, fullPrefix, delimiter) == Fold(acc, Matching(env, fullPrefix), fullPrefix, delimiter)
    decreases |env|
  {
    if env != [] {
      var rest := Matching(env[1..], fullPrefix);
      if StartsWith(env[0].0, fullPrefix) {
        assert ([env[0]] + rest)[0] == env[0] && ([env[0]] + rest)[1..] == rest;
        match Step(acc, env[0].0, env[0].1, fullPrefix, delimiter)
        case Err(_) =>
        case Ok(next) => OnlyMatchingContribute(next, env[1..], fullPrefix, delimiter);
      } else {
        OnlyMatchingContribute(acc, env[1..], fullPrefix, delimiter);
      }
    }
  }

  /** With no variable under the prefix, there are no overrides. */
  lemma NoMatchingNoOverrides(env: Env, prefix: string, delimiter: string)
    requires forall i :: 0 <= i < |env| ==> !StartsWith(env[i].0, prefix + delimiter)
    ensures Overrides(env, prefix, delimiter) == Ok(map[])
  {
    OnlyMatchingContribute(map[], env, prefix + delimiter, delimiter);
    assert Matching(env, prefix + delimiter) == [];
  }

  /** A variable under the prefix whose name yields no key segment is
      skipped: the loop goes on as if it were not there. */
  lemma BlankNameSkipped(acc: map<string, Tree>, env: Env, name: string, value: string,
                         fullPrefix: string, delimiter: string)
    requires StartsWith(name, fullPrefix) && delimiter != []
    requires Segments(name, fullPrefix, delimiter) == []
    ensures Fold(acc, [(name, value)] + env, fullPrefix, delimiter) == Fold(acc, env, fullPrefix, delimiter)
  {
    assert ([(name, value)] + env)[1..] == env;
  }

  /** `LBF__` and `LBF____` alone are skipped. */
  lemma BlankNamesExample()
    ensures Overrides([("LBF__", "x"), ("LBF____", "y")], "LBF", "__") == Ok(map[])
  {
    var e1, e2 := ("LBF__", "x"), ("LBF____", "y");
    PrefixOnlyHasNoSegment();
    DoubleDelimiterHasNoSegment();
    BlankNameSkipped(map[], [e2], e1.0, e1.1, "LBF__", "__");
    BlankNameSkipped(map[], [], e2.0, e2.1, "LBF__", "__");
    assert [e1, e2] == [e1] + [e2] && [e2] == [e2] + [];
  }

  lemma PrefixOnlyHasNoSegment()
    ensures StartsWith("LBF__", "LBF__") && Segments("LBF__", "LBF__", "__") == []
  {
    var blank: string := [];
    assert "LBF__"[5..] == blank;
    assert Split(blank, "__") == [blank];
    NormalizeSingle(blank);
  }

  lemma DoubleDelimiterHasNoSegment()
    ensures StartsWith("LBF____", "LBF__") && Segments("LBF____", "LBF__", "__") == []
  {
    var blank: string := [];
    assert "LBF____"[5..] == blank + "__" + blank;
    SplitAtDoubleUnderscore(blank, blank);
    assert Split(blank, "__") == [blank];
    NormalizeSingle(blank);
    NormalizeAppend([blank], [blank]);
    assert [blank] + [blank] == [blank, blank];
  }

  /** The values of the environment. */
  function Values(env: Env): set<string>
  {
    set i | 0 <= i < |env| :: env[i].1
  }

  /** Values are kept as strings: every leaf of the override tree is the raw
      value of some environment variable. */
  lemma {:induction false} LeavesAreRawValues(acc: map<string, Tree>, env: Env, fullPrefix: string, delimiter: string, values: set<string>)
    requires LeavesAmong(acc, values) && Values(env) <= values
    requires Fold(acc, env, fullPrefix, delimiter).Ok?
    ensures LeavesAmong(Fold(acc, env, fullPrefix, delimiter).value, values)
    decreases |env|
  {
    if env != [] {
      assert env[0].1 in Values(env);
      assert Values(env[1..]) <= Values(env) by {
        forall x | x in Values(env[1..]) ensures x in Values(env) {
          var i :| 0 <= i < |env[1..]| && env[1..][i].1 == x;
          assert env[i + 1].1 == x;
        }
      }
      var step := Step(acc, env[0].0, env[0].1, fullPrefix, delimiter);
      if StartsWith(env[0].0, fullPrefix) && delimiter != [] {
        var segs := Segments(env[0].0, fullPrefix, delimiter);
        if segs != [] {
          InsertKeepsLeavesAmong(acc, segs, env[0].1, values);
        }
      }
      LeavesAreRawValues(step.value, env[1..], fullPrefix, delimiter, values);
    }
  }

  /** The last variable's raw value lands at its key path. */
  lemma LastValueLands(env: Env, name: string, value: string, prefix: string, delimiter: string)
    requires StartsWith(name, prefix + delimiter) && delimiter != []
    requires Segments(name, prefix + delimiter, delimiter) != []
    requires Overrides(env + [(name, value)], prefix, delimiter).Ok?
    ensures GetAt(Overrides(env + [(name, value)], prefix, delimiter).value,
                  Segments(name, prefix + delimiter, delimiter)) == Some(Str(value))
  {
    var fp := prefix + delimiter;
    FoldAppend(map[], env, (name, value), fp, delimiter);
    var before := Fold(map[], env, fp, delimiter).value;
    InsertPlacesValue(before, Segments(name, fp, delimiter), Str(value));
  }

  /** A later variable whose path runs through a string an earlier variable
      left there makes `env_overrides` fail. */
  lemma NestingUnderLeafFails(env: Env, name: string, value: string, prefix: string, delimiter: string, j: nat)
    requires StartsWith(name, prefix + delimiter) && delimiter != []
    requires Overrides(env, prefix, delimiter).Ok?
    requires var segs := Segments(name, prefix + delimiter, delimiter);
             1 <= j < |segs| && GetAt(Overrides(env, prefix, delimiter).value, segs[..j]).Some?
             && GetAt(Overrides(env, prefix, delimiter).value, segs[..j]).value.Str?
    ensures Overrides(env + [(name, value)], prefix, delimiter).Err?
  {
    var fp := prefix + delimiter;
    FoldAppend(map[], env, (name, value), fp, delimiter);
    InsertFailsIff(Overrides(env, prefix, delimiter).value, Segments(name, fp, delimiter), Str(value));
  }

  /** `LBF__A=1` then `LBF__A__B=2` fails at `a`; in the other order the
      later, shorter name simply overwrites `a`. */
  lemma ConflictDependsOnOrder()
    ensures Overrides([("LBF__A", "1"), ("LBF__A__B", "2")], "LBF", "__") == Err(NestConflict("a"))
    ensures Overrides([("LBF__A__B", "2"), ("LBF__A", "1")], "LBF", "__") == Ok(map["a" := Str("1")])
  {
    SegmentsOfA();
    SegmentsOfAB();
    var e1, e2 := ("LBF__A", "1"), ("LBF__A__B", "2");
    assert [e1, e2][1..] == [e2] && [e2, e1][1..] == [e1] && [e1][1..] == [] && [e2][1..] == [];
    assert Step(map[], "LBF__A", "1", "LBF__", "__") == Ok(map["a" := Str("1")]);
    assert Step(map["a" := Str("1")], "LBF__A__B", "2", "LBF__", "__") == Err(NestConflict("a"));
    var ab := map["a" := Map(map["b" := Str("2")])];
    assert Step(map[], "LBF__A__B", "2", "LBF__", "__") == Ok(ab);
    assert ab["a" := Str("1")] == map["a" := Str("1")];
    assert Insert(ab, ["a"], Str("1")) == Ok(map["a" := Str("1")]);
    assert Step(ab, "LBF__A", "1", "LBF__", "__") == Ok(map["a" := Str("1")]);
  }

  /** The example in the docstring of `env_overrides`. */
  lemma DocstringExample()
    ensures Overrides([("LBF__SCRAPING__TIMEOUT", "15"), ("LBF__OUTPUT__FORMAT", "csv")], "LBF", "__")
            == Ok(map["scraping" := Map(map["timeout" := Str("15")]), "output" := Map(map["format" := Str("csv")])])
  {
    var e1, e2 := ("LBF__SCRAPING__TIMEOUT", "15"), ("LBF__OUTPUT__FORMAT", "csv");
    var first := map["scraping" := Map(map["timeout" := Str("15")])];
    var both := first["output" := Map(map["format" := Str("csv")])];
    DocstringFirstStep();
    DocstringSecondStep(first);
    assert [e1, e2][1..] == [e2] && [e2][1..] == [];
    assert Fold(both, [], "LBF__", "__") == Ok(both);
    assert Fold(first, [e2], "LBF__", "__") == Ok(both);
  }

  lemma DocstringFirstStep()
    ensures Step(map[], "LBF__SCRAPING__TIMEOUT", "15", "LBF__", "__")
            == Ok(map["scraping" := Map(map["timeout" := Str("15")])])
  {
    UpperWordLowered("SCRAPING", "scraping");
    UpperWordLowered("TIMEOUT", "timeout");
    TwoWordSegments("LBF__SCRAPING__TIMEOUT", "SCRAPING", "TIMEOUT", "scraping", "timeout");
    InsertPlacesTwo(map[], "scraping", "timeout", Str("15"));
  }

  lemma DocstringSecondStep(first: map<string, Tree>)
    requires first == map["scraping" := Map(map["timeout" := Str("15")])]
    ensures Step(first, "LBF__OUTPUT__FORMAT", "csv", "LBF__", "__")
            == Ok(first["output" := Map(map["format" := Str("csv")])])
  {
    UpperWordLowered("OUTPUT", "output");
    UpperWordLowered("FORMAT", "format");
    TwoWordSegments("LBF__OUTPUT__FORMAT", "OUTPUT", "FORMAT", "output", "format");
    InsertPlacesTwo(first, "output", "format", Str("csv"));
  }

  /** Inserting under two fresh keys builds the nested mapping. */
  lemma InsertPlacesTwo(d: map<string, Tree>, k1: string, k2: string, v: Tree)
    requires k1 !in d
    ensures Insert(d, [k1, k2], v) == Ok(d[k1 := Map(map[k2 := v])])
  {
    assert [k1, k2][1..] == [k2];
    assert Insert(map[], [k2], v) == Ok(map[k2 := v]);
  }

  /** `Lower` on an upper-case ASCII word without `_` or whitespace. */
  lemma UpperWordLowered(w: string, lower: string)
    requires |w| == |lower| && forall i :: 0 <= i < |w| ==> 'A' <= w[i] <= 'Z' && lower[i] == w[i] - 'A' + 'a'
    requires w != []
    ensures Lower(w) == lower && '_' !in w && !IsSpace(w[0]) && !IsSpace(w[|w| - 1])
  {
  }

  /** `LBF__<A>__<B>` has the two segments `a` and `b`. */
  lemma TwoWordSegments(name: string, a: string, b: string, lowerA: string, lowerB: string)
    requires name == "LBF__" + a + "__" + b
    requires a != [] && '_' !in a && !IsSpace(a[0]) && !IsSpace(a[|a| - 1]) && Lower(a) == lowerA
    requires b != [] && '_' !in b && !IsSpace(b[0]) && !IsSpace(b[|b| - 1]) && Lower(b) == lowerB
    ensures StartsWith(name, "LBF__") && Segments(name, "LBF__", "__") == [lowerA, lowerB]
  {
    assert StartsWith(name, "LBF__") by { assert name[..5] == "LBF__"; }
    assert name[5..] == a + "__" + b;
    SplitAtDoubleUnderscore(a, b);
    SplitWithoutUnderscore(b);
    StripWithoutSpace(a);
    WordSegments(b, lowerB);
    NormalizeCons(a, [b]);
  }

  lemma NormalizeCons(p: string, rest: seq<string>)
    requires Strip(p) != []
    ensures Normalize([p] + rest) == [Lower(Strip(p))] + Normalize(rest)
  {
    assert ([p] + rest)[1..] == rest;
  }

  lemma SegmentsOfA()
    ensures StartsWith("LBF__A", "LBF__") && Segments("LBF__A", "LBF__", "__") == ["a"]
  {
    WordSegments("A", "a");
    assert "LBF__A"[5..] == "A";
  }

  lemma SegmentsOfAB()
    ensures StartsWith("LBF__A__B", "LBF__") && Segments("LBF__A__B", "LBF__", "__") == ["a", "b"]
  {
    TwoWordSegments("LBF__A__B", "A", "B", "a", "b");
  }

  /** A single upper-case word without `_` or whitespace is one segment. */
  lemma WordSegments(w: string, lower: string)
    requires w != [] && '_' !in w && !IsSpace(w[0]) && !IsSpace(w[|w| - 1])
    requires Lower(w) == lower
    ensures Split(w, "__") == [w] && Normalize([w]) == [lower]
  {
    SplitWithoutUnderscore(w);
    StripWithoutSpace(w);
    assert [w][1..] == [];
  }
}
