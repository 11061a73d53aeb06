/** `load_config`: locate and read the file, expand it, merge the
    environment overrides over it and the caller's overrides over that, and
    validate the result against the schema. */
module Loader {
  import opened ConfigTree
  import opened Locator
  import opened Expansion
  import opened DeepMerge
  import opened EnvironmentOverrides
  import opened Models

  /** The file's contribution: the discovered file, shape-checked and
      expanded; nothing when no file was found and that is allowed. */
  function FileStage(discovered: Option<string>, allowMissing: bool, env: Env, host: Host)
    : Result<map<string, Tree>>
  {
    match discovered
    case Some(path) =>
      (match host.readYaml(path)
       case None => Err(Unreadable(path))
       case Some(doc) =>
         var fileData :- SafeLoad(path, doc);
         Ok(ExpandTree(env, Map(fileData)).entries))
    case None =>
      if allowMissing then Ok(map[]) else Err(NotFound)
  }

  /** The caller's overrides as `load_config` applies them: `None` and an
      empty mapping both leave the data alone. */
  function ApplyCallerOverrides(data: map<string, Tree>, overrides: Option<map<string, Tree>>): map<string, Tree>
  {
    if overrides.Some? && overrides.value != map[] then Merge(data, overrides.value) else data
  }

  /** The merged tree that `load_config` hands to `AppConfig.model_validate`. */
  function Resolved(configPath: Option<string>, overrides: Option<map<string, Tree>>, allowMissing: bool,
                    env: Env, host: Host): Result<map<string, Tree>>
  {
    var data :- FileStage(Locate(configPath, env, host), allowMissing, env, host);
    var fromEnv :- Overrides(env, "LBF", "__");
    Ok(ApplyCallerOverrides(Merge(data, fromEnv), overrides))
  }

  /** What `load_config` returns or raises. */
  function Load(configPath: Option<string>, overrides: Option<map<string, Tree>>, allowMissing: bool,
                env: Env, host: Host): Result<AppConfig>
  {
    var data :- Resolved(configPath, overrides, allowMissing, env, host);
    Validate(data)
  }

  /** `load_config`, step by step as the source runs it. */
  method LoadConfig(configPath: Option<string>, overrides: Option<map<string, Tree>>, allowMissing: bool,
                    env: Env, host: Host) returns (config: Result<AppConfig>)
    ensures config == Load(configPath, overrides, allowMissing, env, host)
  {
    var discovered := FindConfigPath(configPath, env, host);
    var data: map<string, Tree> := map[];
    if discovered.Some? {
      var doc := host.readYaml(discovered.value);
      if doc.None? {
        return Err(Unreadable(discovered.value));
      }
      var fileData := SafeLoad(discovered.value, doc.value);
      if fileData.Err? {
        return Err(fileData.error);
      }
      data := ExpandTree(env, Map(fileData.value)).entries;
    } else if !allowMissing {
      return Err(NotFound);
    }
    var fromEnv := EnvOverrides(env, "LBF", "__");
    if fromEnv.Err? {
      return Err(fromEnv.error);
    }
    data := DeepMergeInto(data, fromEnv.value);
    if overrides.Some? && overrides.value != map[] {
      data := DeepMergeInto(data, overrides.value);
    }
    return Validate(data);
  }

  /** With `allow_missing=False` and no file found, loading fails with
      `FileNotFoundError` before anything else is looked at. */
  lemma MissingFileRejected(configPath: Option<string>, overrides: Option<map<string, Tree>>, env: Env, host: Host)
    requires Locate(configPath, env, host).None?
    ensures Load(configPath, overrides, false, env, host) == Err(NotFound)
  {
  }

  /** A file that is found but cannot be read or parsed makes loading fail,
      whatever `allow_missing` says. */
  lemma UnreadableFileRejected(configPath: Option<string>, overrides: Option<map<string, Tree>>,
                               allowMissing: bool, env: Env, host: Host, path: string)
    requires Locate(configPath, env, host) == Some(path) && host.readYaml(path).None?
    ensures Load(configPath, overrides, allowMissing, env, host) == Err(Unreadable(path))
  {
  }

  /** A string the file holds at a key path that neither the environment nor
      the caller touches reaches the merged tree with its `$NAME` references
      expanded. */
  lemma FileStringExpanded(configPath: Option<string>, overrides: Option<map<string, Tree>>,
                           allowMissing: bool, env: Env, host: Host, path: string, p: seq<string>, s: string)
    requires Resolved(configPath, overrides, allowMissing, env, host).Ok?
    requires Locate(configPath, env, host) == Some(path) && host.readYaml(path).Some?
    requires host.readYaml(path).value.Map?
    requires p != [] && GetAt(host.readYaml(path).value.entries, p) == Some(Str(s))
    requires !Touches(Overrides(env, "LBF", "__").value, p)
    requires overrides.None? || !Touches(overrides.value, p)
    ensures GetAt(Resolved(configPath, overrides, allowMissing, env, host).value, p) == Some(Str(ExpandVars(env, s)))
  {
    FileKeptWhenNotOverridden(configPath, overrides, allowMissing, env, host, p);
    ExpandedStringAt(env, host.readYaml(path).value.entries, p);
  }

  /** With no file, no `LBF__` variable and no caller overrides, loading
      gives the default configuration. */
  lemma NothingGivenIsDefault(configPath: Option<string>, env: Env, host: Host)
    requires Locate(configPath, env, host).None?
    requires forall i :: 0 <= i < |env| ==> !StartsWith(env[i].0, "LBF__")
    ensures Load(configPath, None, true, env, host) == Ok(DefaultApp)
  {
    NoMatchingNoOverrides(env, "LBF", "__");
    MergeWithEmpty(map[]);
    EmptyIsDefault();
  }

  /** A caller override leaf beats the environment and the file. */
  lemma CallerOverrideWins(configPath: Option<string>, overrides: map<string, Tree>, allowMissing: bool,
                           env: Env, host: Host, p: seq<string>)
    requires Resolved(configPath, Some(overrides), allowMissing, env, host).Ok?
    requires p != [] && GetAt(overrides, p).Some? && !GetAt(overrides, p).value.Map?
    ensures GetAt(Resolved(configPath, Some(overrides), allowMissing, env, host).value, p) == GetAt(overrides, p)
  {
    var data := FileStage(Locate(configPath, env, host), allowMissing, env, host).value;
    var fromEnv := Overrides(env, "LBF", "__").value;
    OverrideLeafWins(Merge(data, fromEnv), overrides, p);
  }

  /** An environment leaf beats the file wherever the caller's overrides do
      not reach. */
  lemma EnvBeatsFile(configPath: Option<string>, overrides: Option<map<string, Tree>>, allowMissing: bool,
                     env: Env, host: Host, p: seq<string>)
    requires Resolved(configPath, overrides, allowMissing, env, host).Ok?
    requires p != []
    requires GetAt(Overrides(env, "LBF", "__").value, p).Some?
    requires !GetAt(Overrides(env, "LBF", "__").value, p).value.Map?
    requires overrides.None? || !Touches(overrides.value, p)
    ensures GetAt(Resolved(configPath, overrides, allowMissing, env, host).value, p)
            == GetAt(Overrides(env, "LBF", "__").value, p)
  {
    var data := FileStage(Locate(configPath, env, host), allowMissing, env, host).value;
    var fromEnv := Overrides(env, "LBF", "__").value;
    OverrideLeafWins(data, fromEnv, p);
    if overrides.Some? && overrides.value != map[] {
      UntouchedPathKept(Merge(data, fromEnv), overrides.value, p);
    }
  }

  /** What the file says at a path neither the environment nor the caller
      touches is what the merged tree says there. */
  lemma FileKeptWhenNotOverridden(configPath: Option<string>, overrides: Option<map<string, Tree>>,
                                  allowMissing: bool, env: Env, host: Host, p: seq<string>)
    requires Resolved(configPath, overrides, allowMissing, env, host).Ok?
    requires p != []
    requires !Touches(Overrides(env, "LBF", "__").value, p)
    requires overrides.None? || !Touches(overrides.value, p)
    ensures GetAt(Resolved(configPath, overrides, allowMissing, env, host).value, p)
            == GetAt(FileStage(Locate(configPath, env, host), allowMissing, env, host).value, p)
  {
    var data := FileStage(Locate(configPath, env, host), allowMissing, env, host).value;
    var fromEnv := Overrides(env, "LBF", "__").value;
    UntouchedPathKept(data, fromEnv, p);
    if overrides.Some? && overrides.value != map[] {
      UntouchedPathKept(Merge(data, fromEnv), overrides.value, p);
    }
  }

  /** In the typed result: credentials given by the caller win. */
  lemma CallerCredentialsWin(configPath: Option<string>, overrides: map<string, Tree>, allowMissing: bool,
                             env: Env, host: Host, x: string)
    requires Load(configPath, Some(overrides), allowMissing, env, host).Ok?
    requires GetAt(overrides, CredentialsPath) == Some(Str(x))
    ensures Load(configPath, Some(overrides), allowMissing, env, host).value.scraper.reddit.credentials == x
  {
    CallerOverrideWins(configPath, overrides, allowMissing, env, host, CredentialsPath);
    CredentialsTaken(Resolved(configPath, Some(overrides), allowMissing, env, host).value, x);
  }

  /** In the typed result: credentials from `LBF__SCRAPER__REDDIT__CREDENTIALS`
      win over the file's when the caller gives none. */
  lemma EnvCredentialsBeatFile(configPath: Option<string>, allowMissing: bool, env: Env, host: Host, x: string)
    requires Load(configPath, None, allowMissing, env, host).Ok?
    requires GetAt(Overrides(env, "LBF", "__").value, CredentialsPath) == Some(Str(x))
    ensures Load(configPath, None, allowMissing, env, host).value.scraper.reddit.credentials == x
  {
    EnvBeatsFile(configPath, None, allowMissing, env, host, CredentialsPath);
    CredentialsTaken(Resolved(configPath, None, allowMissing, env, host).value, x);
  }
}
