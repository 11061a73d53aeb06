/** Which configuration file `load_config` reads: an explicit path, else the
    path in `LBF_CONFIG`, else the first default location that is a file. */
module Locator {
  import opened ConfigTree

  /** What the loader asks of the host: the home directory, whether a path
      names a regular file, `~` expansion, and reading and parsing a YAML
      file (`open` followed by `yaml.safe_load`; an empty document parses to
      `Scalar(Null)`, and a file that cannot be opened or parsed gives
      `None`, which the loader reports as `Unreadable`). */
  datatype Host = Host(
    home: string,
    isFile: string -> bool,
    expandUser: string -> string,
    readYaml: string -> Option<Tree>)

  /** `DEFAULT_CANDIDATE_PATHS`, in probing order. */
  function DefaultCandidates(home: string): (c: seq<string>)
    ensures |c| == 4
    ensures c[0] == "./config.yaml" && c[1] == "./config/settings.yaml"
    ensures c[2] == home + "/.config/lightbulbflow/config.yaml"
    ensures c[3] == "/etc/lightbulbflow/config.yaml"
  {
    ["./config.yaml",
     "./config/settings.yaml",
     home + "/.config/lightbulbflow/config.yaml",
     "/etc/lightbulbflow/config.yaml"]
  }

  /** The first of `candidates` that is a file. */
  function FirstFile(candidates: seq<string>, isFile: string -> bool): Option<string>
  {
    if candidates == [] then None
    else if isFile(candidates[0]) then Some(candidates[0])
    else FirstFile(candidates[1..], isFile)
  }

  /** A path given directly or through `LBF_CONFIG` is taken or refused on
      its own: no other source is tried after it. */
  function Checked(path: string, host: Host): Option<string>
  {
    var p := host.expandUser(path);
    if host.isFile(p) then Some(p) else None
  }

  /** `find_config_path`: the value the loop-based method computes. */
  function Locate(explicit: Option<string>, env: Env, host: Host): Option<string>
  {
    if explicit.Some? && explicit.value != "" then Checked(explicit.value, host)
    else
      var fromEnv := Lookup(env, "LBF_CONFIG");
      if fromEnv.Some? && fromEnv.value != "" then Checked(fromEnv.value, host)
      else FirstFile(DefaultCandidates(host.home), host.isFile)
  }

  /** `FirstFile` picks the earliest file in list order, and finds nothing
      only when no candidate is a file. */
  lemma {:induction false} FirstFileIsEarliest(candidates: seq<string>, isFile: string -> bool)
    ensures FirstFile(candidates, isFile).None? <==>
              forall i :: 0 <= i < |candidates| ==> !isFile(candidates[i])
    ensures FirstFile(candidates, isFile).Some? ==>
              exists i :: 0 <= i < |candidates| && candidates[i] == FirstFile(candidates, isFile).value
                && isFile(candidates[i])
                && forall j :: 0 <= j < i ==> !isFile(candidates[j])
  {
    if candidates != [] && !isFile(candidates[0]) {
      var rest := candidates[1..];
      FirstFileIsEarliest(rest, isFile);
      assert forall i :: 1 <= i < |candidates| ==> candidates[i] == rest[i - 1];
      if FirstFile(rest, isFile).Some? {
        var i :| 0 <= i < |rest| && rest[i] == FirstFile(rest, isFile).value
                 && isFile(rest[i]) && forall j :: 0 <= j < i ==> !isFile(rest[j]);
        assert candidates[i + 1] == rest[i];
      }
    }
  }

  /** The precedence of `find_config_path`: a non-empty explicit path is
      decisive (it is the answer when it is a file, and otherwise there is
      no answer), and so is a non-empty `LBF_CONFIG`; only without both are
      the default locations probed, and then the first one that is a file
      wins. */
  lemma LocatePrecedence(explicit: Option<string>, env: Env, host: Host)
    ensures explicit.Some? && explicit.value != "" ==>
              Locate(explicit, env, host) ==
                (var p := host.expandUser(explicit.value); if host.isFile(p) then Some(p) else None)
    ensures (explicit.None? || explicit.value == "") && Lookup(env, "LBF_CONFIG").Some?
              && Lookup(env, "LBF_CONFIG").value != "" ==>
              Locate(explicit, env, host) ==
                (var p := host.expandUser(Lookup(env, "LBF_CONFIG").value);
                 if host.isFile(p) then Some(p) else None)
    ensures (explicit.None? || explicit.value == "") &&
              (Lookup(env, "LBF_CONFIG").None? || Lookup(env, "LBF_CONFIG").value == "") ==>
              var c := DefaultCandidates(host.home);
              match Locate(explicit, env, host)
              case None => forall i :: 0 <= i < 4 ==> !host.isFile(c[i])
              case Some(p) => exists i :: 0 <= i < 4 && p == c[i] && host.isFile(p)
                                && forall j :: 0 <= j < i ==> !host.isFile(c[j])
  {
    FirstFileIsEarliest(DefaultCandidates(host.home), host.isFile);
  }

  /** An explicit path that is not a file gives no configuration, even when
      every default location is a file. */
  lemma ExplicitNeverFallsBack(explicit: string, env: Env, host: Host)
    requires explicit != "" && !host.isFile(host.expandUser(explicit))
    requires forall i :: 0 <= i < 4 ==> host.isFile(DefaultCandidates(host.home)[i])
    ensures Locate(Some(explicit), env, host) == None
  {
  }

  /** `find_config_path`, as the source writes it: two early returns, then a
      loop over the default candidates that returns the first file. */
  method FindConfigPath(explicit: Option<string>, env: Env, host: Host) returns (found: Option<string>)
    ensures found == Locate(explicit, env, host)
  {
    if explicit.Some? && explicit.value != "" {
      var p := host.expandUser(explicit.value);
      return if host.isFile(p) then Some(p) else None;
    }
    var envPath := Lookup(env, "LBF_CONFIG");
    if envPath.Some? && envPath.value != "" {
      var p := host.expandUser(envPath.value);
      return if host.isFile(p) then Some(p) else None;
    }
    var candidates := DefaultCandidates(host.home);
    for i := 0 to |candidates|
      invariant FirstFile(candidates, host.isFile) == FirstFile(candidates[i..], host.isFile)
    {
      assert candidates[i..][1..] == candidates[i + 1..];
      if host.isFile(candidates[i]) {
        return Some(candidates[i]);
      }
    }
    return None;
  }
}
