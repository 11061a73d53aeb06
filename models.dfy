/** The closed schema of `models.py`: `AppConfig` holds a `ScraperConfig`,
    which holds a `RedditConfig`, which holds `credentials`. Every model
    forbids extra keys, and every field has a default. */
module Models {
  import opened ConfigTree

  datatype RedditConfig = RedditConfig(credentials: string)
  datatype ScraperConfig = ScraperConfig(reddit: RedditConfig)
  datatype AppConfig = AppConfig(scraper: ScraperConfig)

  /** The defaults: `credentials=""`, and each nested model built from its
      own defaults. */
  const DefaultReddit := RedditConfig("")
  const DefaultScraper := ScraperConfig(DefaultReddit)
  const DefaultApp := AppConfig(DefaultScraper)

  /** The only key path the schema knows. */
  const CredentialsPath: seq<string> := ["scraper", "reddit", "credentials"]

  /** `RedditConfig.model_validate`: a mapping whose only allowed key is
      `credentials`, which must be a string when present. */
  function ValidateReddit(t: Tree, location: seq<string>): (r: Result<RedditConfig>)
    ensures r.Ok? <==>
              && t.Map?
              && t.entries.Keys <= {"credentials"}
              && ("credentials" in t.entries ==> t.entries["credentials"].Str?)
    ensures r.Ok? ==>
              r.value.credentials == (if "credentials" in t.entries then t.entries["credentials"].s else "")
  {
    if !t.Map? then Err(NotAModel(location))
    else
      var extra := t.entries.Keys - {"credentials"};
      if extra != {} then Err(ExtraFields(location, extra))
      else if "credentials" !in t.entries then Ok(DefaultReddit)
      else if t.entries["credentials"].Str? then Ok(RedditConfig(t.entries["credentials"].s))
      else Err(NotAPath(location + ["credentials"]))
  }

  /** `ScraperConfig.model_validate`: a mapping whose only allowed key is
      `reddit`; a missing `reddit` is a default `RedditConfig`. */
  function ValidateScraper(t: Tree, location: seq<string>): (r: Result<ScraperConfig>)
    ensures r.Ok? ==> t.Map? && t.entries.Keys <= {"reddit"}
    ensures r.Ok? && "reddit" !in t.entries ==> r.value == DefaultScraper
    ensures (t.Map? && "reddit" in t.entries &&
             ValidateReddit(t.entries["reddit"], location + ["reddit"]).Err?) ==> r.Err?
  {
    if !t.Map? then Err(NotAModel(location))
    else
      var extra := t.entries.Keys - {"reddit"};
      if extra != {} then Err(ExtraFields(location, extra))
      else if "reddit" !in t.entries then Ok(DefaultScraper)
      else
        match ValidateReddit(t.entries["reddit"], location + ["reddit"])
        case Err(e) => Err(e)
        case Ok(reddit) => Ok(ScraperConfig(reddit))
  }

  /** `AppConfig.model_validate` on the merged mapping. */
  function Validate(data: map<string, Tree>): (r: Result<AppConfig>)
    ensures r.Ok? ==> data.Keys <= {"scraper"}
    ensures r.Ok? && "scraper" !in data ==> r.value == DefaultApp
    ensures "scraper" in data && ValidateScraper(data["scraper"], ["scraper"]).Err? ==> r.Err?
  {
    var extra := data.Keys - {"scraper"};
    if extra != {} then Err(ExtraFields([], extra))
    else if "scraper" !in data then Ok(DefaultApp)
    else
      match ValidateScraper(data["scraper"], ["scraper"])
      case Err(e) => Err(e)
      case Ok(scraper) => Ok(AppConfig(scraper))
  }

  /** `model_dump()`: the configuration as a tree. */
  function Dump(c: AppConfig): map<string, Tree>
  {
    map["scraper" := Map(map["reddit" := Map(map["credentials" := Str(c.scraper.reddit.credentials)])])]
  }

  /** Dumping a configuration and validating the dump gives it back. */
  lemma ValidateDumpRoundTrip(c: AppConfig)
    ensures Validate(Dump(c)) == Ok(c)
  {
    var reddit := Map(map["credentials" := Str(c.scraper.reddit.credentials)]);
    assert ValidateReddit(reddit, ["scraper", "reddit"]) == Ok(c.scraper.reddit);
    var scraper := Map(map["reddit" := reddit]);
    assert ValidateScraper(scraper, ["scraper"]) == Ok(c.scraper);
  }

  /** An empty document with no overrides is the default configuration. */
  lemma EmptyIsDefault()
    ensures Validate(map[]) == Ok(DefaultApp)
    ensures Validate(map["scraper" := Map(map[])]) == Ok(DefaultApp)
    ensures Validate(map["scraper" := Map(map["reddit" := Map(map[])])]) == Ok(DefaultApp)
  {
  }

  /** Every key path of `m` is a key path of `n`, with the same value at
      every path where `m` holds something other than a mapping. */
  predicate Embeds(m: map<string, Tree>, n: map<string, Tree>)
    decreases Map(m)
  {
    forall k :: k in m ==>
      k in n && (m[k] == n[k] || (m[k].Map? && n[k].Map? && Embeds(m[k].entries, n[k].entries)))
  }

  lemma {:induction false} EmbedsGetAt(m: map<string, Tree>, n: map<string, Tree>, p: seq<string>)
    requires p != [] && Embeds(m, n) && GetAt(m, p).Some?
    ensures GetAt(n, p).Some?
    ensures !GetAt(m, p).value.Map? ==> GetAt(n, p) == GetAt(m, p)
    decreases |p|
  {
    var k := p[0];
    if |p| > 1 && m[k] != n[k] {
      EmbedsGetAt(m[k].entries, n[k].entries, p[1..]);
    }
  }

  /** Validation drops nothing: everything the tree holds, the validated
      configuration holds too, at the same key path and with the same
      string leaf. */
  lemma ValidateDropsNothing(m: map<string, Tree>)
    requires Validate(m).Ok?
    ensures Embeds(m, Dump(Validate(m).value))
  {
    var c := Validate(m).value;
    var n := Dump(c);
    if "scraper" in m {
      var s := m["scraper"].entries;
      var ns := n["scraper"].entries;
      if "reddit" in s {
        var rd := s["reddit"].entries;
        var nrd := ns["reddit"].entries;
        assert Embeds(rd, nrd);
        assert Embeds(s, ns);
      }
      assert Embeds(s, ns);
    }
  }

  /** A key path the schema allows: a prefix of `scraper.reddit.credentials`. */
  predicate IsSchemaPath(p: seq<string>)
  {
    p != [] && |p| <= |CredentialsPath| && p == CredentialsPath[..|p|]
  }

  lemma DumpPathsAreSchemaPaths(c: AppConfig, p: seq<string>)
    requires p != [] && GetAt(Dump(c), p).Some?
    ensures IsSchemaPath(p)
  {
    var d := Dump(c);
    assert p[0] == "scraper";
    if |p| == 1 {
      assert p == CredentialsPath[..1];
    } else {
      var s := d["scraper"].entries;
      assert GetAt(s, p[1..]).Some?;
      assert p[1] == "reddit";
      if |p| == 2 {
        assert p == CredentialsPath[..2];
      } else {
        var r := s["reddit"].entries;
        assert p[1..][1..] == p[2..];
        assert GetAt(r, p[2..]).Some?;
        assert p[2] == "credentials";
        assert |p| == 3;
        assert p == CredentialsPath;
      }
    }
  }

  /** The schema is closed at every depth: a tree that holds anything at a
      key path outside `scraper.reddit.credentials` fails validation. */
  lemma UnknownPathRejected(m: map<string, Tree>, p: seq<string>)
    requires p != [] && GetAt(m, p).Some? && !IsSchemaPath(p)
    ensures Validate(m).Err?
  {
    if Validate(m).Ok? {
      ValidateDropsNothing(m);
      EmbedsGetAt(m, Dump(Validate(m).value), p);
      DumpPathsAreSchemaPaths(Validate(m).value, p);
    }
  }

  /** A `subreddits` key under `scraper.reddit` is an extra field. */
  lemma SubredditsRejected(m: map<string, Tree>, v: Tree)
    requires GetAt(m, ["scraper", "reddit", "subreddits"]) == Some(v)
    ensures Validate(m).Err?
  {
    UnknownPathRejected(m, ["scraper", "reddit", "subreddits"]);
  }

  /** A string at `scraper.reddit.credentials` is the validated credentials. */
  lemma CredentialsTaken(m: map<string, Tree>, x: string)
    requires Validate(m).Ok? && GetAt(m, CredentialsPath) == Some(Str(x))
    ensures Validate(m).value.scraper.reddit.credentials == x
  {
    ValidateDropsNothing(m);
    EmbedsGetAt(m, Dump(Validate(m).value), CredentialsPath);
  }
}
