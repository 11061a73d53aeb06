/** `_deep_merge`: the override side wins, mappings on both sides merge key
    by key, and everything else (lists included) is replaced wholesale. */
module DeepMerge {
  import opened ConfigTree

  /** The mapping `_deep_merge(base, over)` leaves in `base`. */
  function Merge(base: map<string, Tree>, over: map<string, Tree>): (r: map<string, Tree>)
    ensures r.Keys == base.Keys + over.Keys
    decreases Map(over)
  {
    map k | k in base.Keys + over.Keys ::
      if k !in over then base[k]
      else if k in base && base[k].Map? && over[k].Map? then Map(Merge(base[k].entries, over[k].entries))
      else over[k]
  }

  /** `_deep_merge` as written: a loop over the override's keys that either
      recurses into two nested mappings or stores the override's value.
      The mapping is a value here, so the method returns the updated `base`. */
  method DeepMergeInto(base: map<string, Tree>, over: map<string, Tree>) returns (merged: map<string, Tree>)
    ensures merged == Merge(base, over)
    decreases Map(over)
  {
    merged := base;
    var todo := over.Keys;
    while todo != {}
      invariant todo <= over.Keys
      invariant merged.Keys == base.Keys + (over.Keys - todo)
      invariant forall k :: k in merged ==>
                  merged[k] == if k in over.Keys - todo then Merge(base, over)[k] else base[k]
      decreases todo
    {
      var k :| k in todo;
      if k in merged && merged[k].Map? && over[k].Map? {
        var sub := DeepMergeInto(merged[k].entries, over[k].entries);
        merged := merged[k := Map(sub)];
      } else {
        merged := merged[k := over[k]];
      }
      todo := todo - {k};
    }
  }

  /** The override `o` says something about the key path `p`: it holds a
      value at `p` itself, or a non-mapping at some prefix of `p`. */
  predicate Touches(o: map<string, Tree>, p: seq<string>)
    requires p != []
    decreases |p|
  {
    p[0] in o && (|p| == 1 || !o[p[0]].Map? || Touches(o[p[0]].entries, p[1..]))
  }

  lemma {:induction false} DefinedPathIsTouched(o: map<string, Tree>, p: seq<string>)
    requires p != []
    ensures GetAt(o, p).Some? ==> Touches(o, p)
    decreases |p|
  {
    if p[0] in o && |p| > 1 && o[p[0]].Map? {
      DefinedPathIsTouched(o[p[0]].entries, p[1..]);
    }
  }

  /** A leaf of the override wins: whatever the base holds on the way to
      `p`, the merge holds the override's non-mapping value there. */
  lemma {:induction false} OverrideLeafWins(b: map<string, Tree>, o: map<string, Tree>, p: seq<string>)
    requires p != []
    requires GetAt(o, p).Some? && !GetAt(o, p).value.Map?
    ensures GetAt(Merge(b, o), p) == GetAt(o, p)
    decreases |p|
  {
    var k := p[0];
    if |p| > 1 {
      if k in b && b[k].Map? {
        OverrideLeafWins(b[k].entries, o[k].entries, p[1..]);
      }
    }
  }

  /** A mapping of the override over anything but a mapping in the base
      replaces it wholesale: the merge holds the override's mapping there,
      even an empty one. */
  lemma {:induction false} OverrideMapOverNonMap(b: map<string, Tree>, o: map<string, Tree>, p: seq<string>)
    requires p != []
    requires GetAt(o, p).Some? && GetAt(o, p).value.Map?
    requires GetAt(b, p).None? || !GetAt(b, p).value.Map?
    ensures GetAt(Merge(b, o), p) == GetAt(o, p)
    decreases |p|
  {
    var k := p[0];
    if |p| > 1 && k in b && b[k].Map? {
      OverrideMapOverNonMap(b[k].entries, o[k].entries, p[1..]);
    }
  }

  /** Where the base and the override both hold a mapping, the merge holds
      the merge of those two mappings, even when both are empty. */
  lemma {:induction false} BothMapsMerge(b: map<string, Tree>, o: map<string, Tree>, p: seq<string>)
    requires p != []
    requires GetAt(b, p).Some? && GetAt(b, p).value.Map?
    requires GetAt(o, p).Some? && GetAt(o, p).value.Map?
    ensures GetAt(Merge(b, o), p) == Some(Map(Merge(GetAt(b, p).value.entries, GetAt(o, p).value.entries)))
    decreases |p|
  {
    if |p| > 1 {
      BothMapsMerge(b[p[0]].entries, o[p[0]].entries, p[1..]);
    }
  }

  /** An empty mapping over an empty mapping stays an empty mapping. */
  lemma EmptyMapsStayEmpty()
    ensures Merge(map["scraper" := Map(map[])], map["scraper" := Map(map[])]) == map["scraper" := Map(map[])]
  {
    MergeWithEmpty(map[]);
  }

  /** The case of a base string under an empty override mapping. */
  lemma EmptyMapReplacesString()
    ensures Merge(map["scraper" := Str("x")], map["scraper" := Map(map[])]) == map["scraper" := Map(map[])]
  {
  }

  /** A path the override does not touch keeps the base's value (or its
      absence). */
  lemma {:induction false} UntouchedPathKept(b: map<string, Tree>, o: map<string, Tree>, p: seq<string>)
    requires p != []
    requires !Touches(o, p)
    ensures GetAt(Merge(b, o), p) == GetAt(b, p)
    decreases |p|
  {
    var k := p[0];
    if k in o {
      if k in b && b[k].Map? {
        UntouchedPathKept(b[k].entries, o[k].entries, p[1..]);
      } else {
        DefinedPathIsTouched(o[k].entries, p[1..]);
      }
    }
  }

  /** Merging with an empty override leaves the base as it was, and merging
      into an empty base gives the override. */
  lemma MergeWithEmpty(m: map<string, Tree>)
    ensures Merge(m, map[]) == m
    ensures Merge(map[], m) == m
  {
  }

  /** Lists are replaced, not concatenated. */
  lemma ListsReplaced()
    ensures Merge(map["a" := List([Scalar(Int(1)), Scalar(Int(2))])], map["a" := List([Scalar(Int(3))])])
            == map["a" := List([Scalar(Int(3))])]
  {
  }

  /** Two trees do not conflict when every key they share holds a mapping
      on both sides, recursively: they share no leaf path. */
  predicate Compatible(a: map<string, Tree>, b: map<string, Tree>)
    decreases Map(a)
  {
    forall k :: k in a && k in b ==>
      a[k].Map? && b[k].Map? && Compatible(a[k].entries, b[k].entries)
  }

  /** On trees with no conflicting path, the merge order does not matter:
      both give the union. */
  lemma {:induction false} MergeCommutesWhenCompatible(a: map<string, Tree>, b: map<string, Tree>)
    requires Compatible(a, b)
    ensures Merge(a, b) == Merge(b, a)
    decreases Map(a)
  {
    forall k | k in a && k in b
      ensures Merge(a[k].entries, b[k].entries) == Merge(b[k].entries, a[k].entries)
    {
      MergeCommutesWhenCompatible(a[k].entries, b[k].entries);
    }
  }

  /** Merges do not regroup: a mapping in the base, a string over it, then a
      mapping over that, ends with the last mapping alone when merged left
      to right, but with both mappings combined when the two overrides are
      merged first. `load_config` merges left to right. */
  lemma MergeOrderMatters()
    ensures var a := map["k" := Map(map["x" := Str("1")])];
            var b := map["k" := Str("s")];
            var c := map["k" := Map(map["y" := Str("2")])];
            Merge(Merge(a, b), c) == c &&
            Merge(a, Merge(b, c)) == map["k" := Map(map["x" := Str("1"), "y" := Str("2")])]
  {
    var a := map["k" := Map(map["x" := Str("1")])];
    var b := map["k" := Str("s")];
    var c := map["k" := Map(map["y" := Str("2")])];
    assert Merge(a, b) == b;
    assert Merge(b, c) == c;
    var inner := Merge(map["x" := Str("1")], map["y" := Str("2")]);
    assert inner == map["x" := Str("1"), "y" := Str("2")];
    assert Merge(a, c) == map["k" := Map(inner)];
  }
}
