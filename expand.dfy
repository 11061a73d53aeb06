/** The two steps between reading the YAML file and merging: the shape check
    on the parsed document (`_safe_load_yaml`) and the expansion of `$NAME`
    and `${NAME}` references inside string values (`_expand_env_vars`). */
module Expansion {
  import opened ConfigTree

  /** `_safe_load_yaml` after `yaml.safe_load`: an empty document is an empty
      mapping, a mapping is kept as it is, anything else is refused. */
  function SafeLoad(path: string, doc: Tree): (r: Result<map<string, Tree>>)
    ensures r.Ok? <==> doc == Scalar(Null) || doc.Map?
    ensures r.Ok? && doc.Map? ==> r.value == doc.entries
    ensures r.Ok? && !doc.Map? ==> r.value == map[]
    ensures r.Err? ==> r.error == NotAMapping(path)
  {
    if doc == Scalar(Null) then Ok(map[])
    else if !doc.Map? then Err(NotAMapping(path))
    else Ok(doc.entries)
  }

  /** A character of a `$name` reference: `\w` under `re.ASCII`. */
  predicate IsWordChar(c: char)
  {
    ('a' <= c <= 'z') || ('A' <= c <= 'Z') || ('0' <= c <= '9') || c == '_'
  }

  /** The length of the longest prefix of `s` made of word characters. */
  function WordLength(s: string): (n: nat)
    ensures n <= |s|
    ensures forall i :: 0 <= i < n ==> IsWordChar(s[i])
    ensures n < |s| ==> !IsWordChar(s[n])
  {
    if s != [] && IsWordChar(s[0]) then 1 + WordLength(s[1..]) else 0
  }

  /** The index of the first `c` in `s`, if any. */
  function IndexOf(s: string, c: char): (r: Option<nat>)
    ensures r.None? <==> c !in s
    ensures r.Some? ==> r.value < |s| && s[r.value] == c && c !in s[..r.value]
  {
    if s == [] then None
    else if s[0] == c then Some(0)
    else
      match IndexOf(s[1..], c)
      case None => None
      case Some(i) =>
        assert s[..i + 1] == [s[0]] + s[1..][..i];
        Some(i + 1)
  }

  /** The text that replaces the reference `ref` to variable `name`: its
      value when it is set, the reference itself when it is not. */
  function Substitute(env: Env, name: string, ref: string): string
  {
    match Lookup(env, name)
    case Some(v) => v
    case None => ref
  }

  /** `os.path.expandvars` on POSIX: scanning left to right, each `$name`
      (ASCII word characters) or `${...}` (anything up to the first `}`) is
      replaced by the variable's value when it is set and left as written
      when it is not; substituted text is not scanned again, and a `$` that
      starts neither form is kept. */
  function ExpandVars(env: Env, s: string): string
    decreases |s|
  {
    if s == [] then []
    else if s[0] != '$' then [s[0]] + ExpandVars(env, s[1..])
    else
      var rest := s[1..];
      var n := WordLength(rest);
      if n > 0 then
        Substitute(env, rest[..n], s[..n + 1]) + ExpandVars(env, rest[n..])
      else if rest != [] && rest[0] == '{' && IndexOf(rest[1..], '}').Some? then
        var j := IndexOf(rest[1..], '}').value;
        Substitute(env, rest[1..j + 1], s[..j + 3]) + ExpandVars(env, rest[j + 2..])
      else
        "$" + ExpandVars(env, rest)
  }

  /** A string without `$` comes out of `ExpandVars` unchanged. */
  lemma {:induction false} ExpandVarsWithoutDollar(env: Env, s: string)
    requires '$' !in s
    ensures ExpandVars(env, s) == s
  {
    if s != [] {
      assert '$' !in s[1..] by { assert forall i :: 0 <= i < |s[1..]| ==> s[1..][i] == s[i + 1]; }
      ExpandVarsWithoutDollar(env, s[1..]);
    }
  }

  /** References to variables that are not set are left as written, never
      blanked: with an empty environment nothing changes. */
  lemma {:induction false} UnsetReferencesKept(s: string)
    ensures ExpandVars([], s) == s
  {
    if s != [] {
      var rest := s[1..];
      if s[0] != '$' {
        UnsetReferencesKept(rest);
      } else {
        var n := WordLength(rest);
        if n > 0 {
          UnsetReferencesKept(rest[n..]);
          assert s == s[..n + 1] + rest[n..];
        } else if rest != [] && rest[0] == '{' && IndexOf(rest[1..], '}').Some? {
          var j := IndexOf(rest[1..], '}').value;
          UnsetReferencesKept(rest[j + 2..]);
          assert s == s[..j + 3] + rest[j + 2..];
        } else {
          UnsetReferencesKept(rest);
        }
      }
    }
  }

  lemma {:induction false} WordLengthOfName(name: string, tail: string)
    requires forall i :: 0 <= i < |name| ==> IsWordChar(name[i])
    requires tail == [] || !IsWordChar(tail[0])
    ensures WordLength(name + tail) == |name|
  {
    if name != [] {
      assert (name + tail)[1..] == name[1..] + tail;
      WordLengthOfName(name[1..], tail);
    }
  }

  /** `$name` is replaced by the value of `name` when it is set and kept
      otherwise; the scan goes on after the name. */
  lemma BareReference(env: Env, name: string, tail: string)
    requires name != [] && forall i :: 0 <= i < |name| ==> IsWordChar(name[i])
    requires tail == [] || !IsWordChar(tail[0])
    ensures ExpandVars(env, "$" + name + tail) ==
              (match Lookup(env, name) case Some(v) => v case None => "$" + name)
              + ExpandVars(env, tail)
  {
    var s := "$" + name + tail;
    WordLengthOfName(name, tail);
    assert s[1..] == name + tail;
    assert s[1..][..|name|] == name && s[1..][|name|..] == tail && s[..|name| + 1] == "$" + name;
  }

  /** `${name}` is replaced by the value of `name` when it is set and kept
      otherwise; the scan goes on after the closing brace. */
  lemma BracedReference(env: Env, name: string, tail: string)
    requires '}' !in name
    ensures ExpandVars(env, "${" + name + "}" + tail) ==
              (match Lookup(env, name) case Some(v) => v case None => "${" + name + "}")
              + ExpandVars(env, tail)
  {
    var s := "${" + name + "}" + tail;
    var rest := s[1..];
    assert rest == "{" + name + "}" + tail;
    assert WordLength(rest) == 0;
    assert rest[1..] == name + "}" + tail;
    assert (name + "}" + tail)[|name|] == '}' && (name + "}" + tail)[..|name|] == name;
    assert IndexOf(rest[1..], '}') == Some(|name|);
    assert rest[1..|name| + 1] == name && rest[|name| + 2..] == tail;
    assert s[..|name| + 3] == "${" + name + "}";
  }

  /** `a` and `b` have the same structure: the same kind at every node, lists
      of the same length, mappings with the same keys, equal non-string
      scalars; only string leaves may differ. */
  predicate SameShape(a: Tree, b: Tree)
  {
    match a
    case Str(_) => b.Str?
    case Scalar(v) => b == Scalar(v)
    case List(xs) =>
      b.List? && |b.items| == |xs| && forall i :: 0 <= i < |xs| ==> SameShape(xs[i], b.items[i])
    case Map(m) =>
      b.Map? && b.entries.Keys == m.Keys && forall k :: k in m ==> SameShape(m[k], b.entries[k])
  }

  /** `b` is `a` with every string leaf, at any depth, replaced by its
      expansion under `env`, and nothing else changed. */
  predicate ExpandedFrom(env: Env, a: Tree, b: Tree)
  {
    match a
    case Str(s) => b == Str(ExpandVars(env, s))
    case Scalar(v) => b == Scalar(v)
    case List(xs) =>
      b.List? && |b.items| == |xs| && forall i :: 0 <= i < |xs| ==> ExpandedFrom(env, xs[i], b.items[i])
    case Map(m) =>
      b.Map? && b.entries.Keys == m.Keys && forall k :: k in m ==> ExpandedFrom(env, m[k], b.entries[k])
  }

  /** `_expand_env_vars`: string leaves are expanded, list elements and
      mapping values are rewritten recursively, keys and other scalars are
      left alone. */
  function ExpandTree(env: Env, t: Tree): (r: Tree)
    ensures SameShape(t, r)
    ensures ExpandedFrom(env, t, r)
  {
    match t
    case Str(s) => Str(ExpandVars(env, s))
    case Scalar(_) => t
    case List(xs) => List(seq(|xs|, i requires 0 <= i < |xs| => ExpandTree(env, xs[i])))
    case Map(m) => Map(map k | k in m :: ExpandTree(env, m[k]))
  }

  /** Every string the file holds at a key path comes out of expansion
      expanded, at that same key path. */
  lemma {:induction false} ExpandedStringAt(env: Env, m: map<string, Tree>, p: seq<string>)
    requires p != [] && GetAt(m, p).Some? && GetAt(m, p).value.Str?
    ensures GetAt(ExpandTree(env, Map(m)).entries, p) == Some(Str(ExpandVars(env, GetAt(m, p).value.s)))
    decreases |p|
  {
    ExpandedPathAt(env, m, ExpandTree(env, Map(m)).entries, p);
  }

  lemma {:induction false} ExpandedPathAt(env: Env, m: map<string, Tree>, n: map<string, Tree>, p: seq<string>)
    requires ExpandedFrom(env, Map(m), Map(n))
    requires p != [] && GetAt(m, p).Some? && GetAt(m, p).value.Str?
    ensures GetAt(n, p) == Some(Str(ExpandVars(env, GetAt(m, p).value.s)))
    decreases |p|
  {
    if |p| > 1 {
      var k := p[0];
      assert ExpandedFrom(env, m[k], n[k]);
      ExpandedPathAt(env, m[k].entries, n[k].entries, p[1..]);
    }
  }

  /** With no variable set, expansion changes nothing at any depth. */
  lemma {:induction false} ExpandTreeUnsetIdentity(t: Tree)
    ensures ExpandTree([], t) == t
  {
    match t
    case Str(s) =>
      UnsetReferencesKept(s);
    case Scalar(_) =>
    case List(xs) =>
      forall i | 0 <= i < |xs| ensures ExpandTree([], xs[i]) == xs[i] {
        ExpandTreeUnsetIdentity(xs[i]);
      }
      assert ExpandTree([], t).items == xs;
    case Map(m) =>
      forall k | k in m ensures ExpandTree([], m[k]) == m[k] {
        ExpandTreeUnsetIdentity(m[k]);
      }
      assert ExpandTree([], t).entries == m;
  }
}
