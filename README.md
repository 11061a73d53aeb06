# LightBulbFlow configuration loader in Dafny

This project models the configuration loader of LightBulbFlow
(`src/config/loader.py`) and the schema it validates against
(`src/config/models.py`). `load_config` builds the configuration in four layers:

1. It finds a YAML file: an explicit path, else `$LBF_CONFIG`, else the first
   of four default locations that is a file.
2. It reads the file, requires its top level to be a mapping, and expands
   `$NAME` / `${NAME}` references in its strings.
3. It deep-merges `LBF__A__B=...` environment variables over the file's data,
   and then the caller's overrides over that.
4. It validates the result against a closed, all-defaults schema:
   `AppConfig.scraper.reddit.credentials`.

Files:

- `tree.dfy` (`ConfigTree`) defines:
  - the configuration tree, which stands for YAML data as Python holds it
    (string, other scalar, list, mapping with string keys);
  - errors and `Result`;
  - the environment, a list of name/value pairs. `Lookup` returns the first
    pair with the name.
  - `GetAt`, which looks up a key path.
- `locator.dfy` (`Locator`) models `DEFAULT_CANDIDATE_PATHS` and
  `find_config_path`. The home directory, the `is_file` test, `~` expansion and
  YAML reading are fields of a `Host` value.
- `expand.dfy` (`Expansion`) models the post-parse checks of `_safe_load_yaml`,
  POSIX `os.path.expandvars` and `_expand_env_vars`.
- `merge.dfy` (`DeepMerge`) models `_deep_merge`.
- `overrides.dfy` (`EnvironmentOverrides`) models `str.split`, `str.strip`,
  `str.lower`, `_insert_nested` and `env_overrides`.
- `models.dfy` (`Models`) models the three pydantic models with
  `extra="forbid"` and their defaults.
- `loader.dfy` (`Loader`) models `load_config`.

The functions that loop in the source (`find_config_path`, `_deep_merge`,
`_insert_nested`, `env_overrides`) are methods with those loops. Each is proved
equal to a specification function (`Locate`, `Merge`, `Insert`, `Overrides`).
`load_config` has no loop. It is the method `LoadConfig`, which runs the same
steps by calling those methods and is proved equal to `Load`. The properties
are proved as lemmas about the specification functions.

Some behaviours of the code, as it is written:

- The schema has only `scraper.reddit.credentials`. Any other key, such as
  `scraper.reddit.subreddits`, is an extra field, so validation fails
  (`Models.SubredditsRejected`).
- `os.path.expandvars` leaves a reference to an unset variable as written. It
  does not blank it (`Expansion.UnsetReferencesKept`). It also expands bare
  `$NAME`, not only `${NAME}`.
- Whether two override variables conflict depends on the order the
  environment lists them in:
  - `LBF__A=1` then `LBF__A__B=2` fails.
  - The other order lets `a` be overwritten by the string
    (`EnvironmentOverrides.ConflictDependsOnOrder`).
- An empty explicit path, or an empty `LBF_CONFIG`, counts as "not given".
  An explicit path or `LBF_CONFIG` that is not a file gives "no file": the
  default locations are not tried (`Locator.ExplicitNeverFallsBack`).

## Model

| member | source | states |
|---|---|---|
| ConfigTree.Lookup | src/config/loader.py:31 | the variable is found exactly when some entry has that name, and the value found belongs to such an entry |
| Locator.DefaultCandidates | src/config/loader.py:11-16 | the four default locations, in probing order, the third under the home directory |
| Locator.FirstFileIsEarliest | src/config/loader.py:36-39 | the default search finds nothing exactly when no candidate is a file; otherwise it returns the earliest candidate that is a file |
| Locator.LocatePrecedence | src/config/loader.py:19-39 | a non-empty explicit path decides alone; without one, a non-empty `LBF_CONFIG` decides alone; otherwise the first default location that is a file wins, and none is found only when no default location is a file |
| Locator.ExplicitNeverFallsBack | src/config/loader.py:27-29 | an explicit path that is not a file gives no file, even when every default location exists |
| Locator.FindConfigPath | src/config/loader.py:19-39 | the loop over the candidates returns exactly the file the precedence rules select |
| Expansion.SafeLoad | src/config/loader.py:42-49 | a document is accepted exactly when it is empty or a mapping; an empty document gives an empty mapping, a mapping is kept, anything else is an error naming the path |
| Expansion.ExpandVarsWithoutDollar | src/config/loader.py:56-57 | a string without `$` is not changed by expansion |
| Expansion.UnsetReferencesKept | src/config/loader.py:56-57 | with no variable set, every string comes out exactly as it went in: unset references are kept, never blanked |
| Expansion.BareReference | src/config/loader.py:56-57 | `$name` followed by a non-word character becomes the variable's value when it is set and stays `$name` otherwise, and the rest of the string is expanded on its own |
| Expansion.BracedReference | src/config/loader.py:52-57 | `${name}` becomes the variable's value when set and stays as written otherwise, and the rest of the string is expanded on its own |
| Expansion.ExpandTree | src/config/loader.py:52-62 | expansion keeps the tree's shape (same kinds, list lengths, mapping keys and non-string scalars) and replaces every string leaf, at any depth, by its expansion |
| Expansion.ExpandedStringAt | src/config/loader.py:52-62 | a string the document holds at a key path comes out expanded, at that same key path |
| Expansion.ExpandTreeUnsetIdentity | src/config/loader.py:52-62 | with no variable set, expanding a tree at any depth leaves it unchanged |
| DeepMerge.Merge | src/config/loader.py:65-75 | the merged mapping's keys are those of the base and of the override |
| DeepMerge.DeepMergeInto | src/config/loader.py:65-75 | the loop over the override's keys, recursing into nested mappings, produces exactly the recursive merge |
| DeepMerge.OverrideLeafWins | src/config/loader.py:70-74 | wherever the override holds a non-mapping value, the merge holds that value, whatever the base had on the way |
| DeepMerge.OverrideMapOverNonMap | src/config/loader.py:71-74 | an override mapping over a base value that is missing or not a mapping replaces it wholesale, even when the mapping is empty |
| DeepMerge.BothMapsMerge | src/config/loader.py:71-72 | where the base and the override both hold a mapping, the merge holds the merge of those two mappings, even when both are empty |
| DeepMerge.EmptyMapsStayEmpty | src/config/loader.py:71-72 | an empty mapping merged over an empty mapping stays an empty mapping |
| DeepMerge.EmptyMapReplacesString | src/config/loader.py:71-74 | an empty override mapping replaces a base string |
| DeepMerge.UntouchedPathKept | src/config/loader.py:70-74 | at a key path the override does not reach, the merge holds what the base holds, or nothing if the base holds nothing |
| DeepMerge.MergeWithEmpty | src/config/loader.py:65-75 | an empty override leaves the base unchanged, and merging into an empty base gives the override |
| DeepMerge.ListsReplaced | src/config/loader.py:67-74 | a list in the override replaces the base's list instead of being concatenated |
| DeepMerge.MergeCommutesWhenCompatible | src/config/loader.py:70-74 | two trees whose shared keys hold mappings all the way down merge to the same result in either order |
| DeepMerge.MergeOrderMatters | src/config/loader.py:133-137 | merges do not regroup: merging left to right differs from merging the two overrides first |
| EnvironmentOverrides.SplitJoin | src/config/loader.py:102 | joining the split pieces with the delimiter gives the name back |
| EnvironmentOverrides.SplitAtDoubleUnderscore | src/config/loader.py:102 | splitting `A__rest` on `__` gives `A` followed by the pieces of `rest` when `A` has no underscore |
| EnvironmentOverrides.Strip | src/config/loader.py:104 | the stripped string starts and ends with a non-whitespace character, if it has any characters |
| EnvironmentOverrides.StripRemovesOuterSpace | src/config/loader.py:104 | `strip` returns a slice of the input and removes only whitespace before and after that slice |
| EnvironmentOverrides.Normalize | src/config/loader.py:104 | the normalised key path has no more segments than there are pieces; every segment is non-empty, has no whitespace at its ends and has no ASCII capital |
| EnvironmentOverrides.NormalizeAppend | src/config/loader.py:104 | the pieces are normalised one after another: the segments of `a + b` are those of `a` followed by those of `b` |
| EnvironmentOverrides.NormalizeSingle | src/config/loader.py:104 | a single piece is dropped when blank and otherwise becomes its stripped, lower-cased text |
| EnvironmentOverrides.NormalizeEmptyIff | src/config/loader.py:104 | a name yields no key segment exactly when all of its pieces are blank |
| EnvironmentOverrides.BlankNameSkipped | src/config/loader.py:105-106 | a variable under the prefix that yields no key segment is skipped: the loop goes on from the same tree as if it were absent |
| EnvironmentOverrides.BlankNamesExample | src/config/loader.py:99-106 | `LBF__` and `LBF____` alone give no overrides and no error |
| EnvironmentOverrides.InsertNested | src/config/loader.py:78-85 | the cursor walk with `setdefault` and the final store compute exactly the nested insertion, including its errors |
| EnvironmentOverrides.InsertPlacesValue | src/config/loader.py:85 | after a successful insertion, the value sits at the key path |
| EnvironmentOverrides.InsertLeavesOtherPaths | src/config/loader.py:78-85 | every key path that parts ways with the inserted one keeps its old value |
| EnvironmentOverrides.InsertFailsIff | src/config/loader.py:80-84 | insertion fails exactly when the key list is empty or some proper prefix of the key path already holds a non-mapping |
| EnvironmentOverrides.InsertKeepsLeavesAmong | src/config/loader.py:85 | inserting a string from a set keeps every leaf within that set |
| EnvironmentOverrides.EnvOverrides | src/config/loader.py:88-108 | the loop over the environment computes exactly the fold of the per-variable step, including its errors |
| EnvironmentOverrides.OnlyMatchingContribute | src/config/loader.py:99-101 | dropping every variable without the `prefix + delimiter` prefix leaves the result unchanged |
| EnvironmentOverrides.NoMatchingNoOverrides | src/config/loader.py:97-108 | with no variable under the prefix, the override tree is empty |
| EnvironmentOverrides.LeavesAreRawValues | src/config/loader.py:95-107 | every leaf of the override tree is the raw string value of some environment variable |
| EnvironmentOverrides.LastValueLands | src/config/loader.py:99-107 | the last variable's raw value sits at the key path its name normalises to |
| EnvironmentOverrides.NestingUnderLeafFails | src/config/loader.py:81-84 | a variable whose key path runs through a string left by an earlier variable makes the whole call fail |
| EnvironmentOverrides.ConflictDependsOnOrder | src/config/loader.py:99-107 | `LBF__A` then `LBF__A__B` fails at `a`, while the reverse order yields `a` as the string `1` |
| EnvironmentOverrides.DocstringExample | src/config/loader.py:91-94 | `LBF__SCRAPING__TIMEOUT=15` and `LBF__OUTPUT__FORMAT=csv` give `scraping.timeout = "15"` and `output.format = "csv"` |
| Models.ValidateReddit | src/config/models.py:8-11 | accepted exactly when it is a mapping with no key but `credentials`, whose value, if present, is a string; the credentials are that string, or `""` when absent |
| Models.ValidateScraper | src/config/models.py:15-18 | accepted only when it is a mapping with no key but `reddit`; a missing `reddit` gives the default; an invalid `reddit` makes it fail |
| Models.Validate | src/config/models.py:22-25 | accepted only when the top level has no key but `scraper`; a missing `scraper` gives the default configuration; an invalid `scraper` makes it fail |
| Models.ValidateDumpRoundTrip | src/config/models.py:8-25 | validating the dump of any configuration gives that configuration back |
| Models.EmptyIsDefault | src/config/models.py:11-25 | an empty mapping, and empty nested mappings, validate to the all-defaults configuration |
| Models.ValidateDropsNothing | src/config/models.py:8-25 | every key path of an accepted tree is in the validated configuration, with the same string leaf |
| Models.UnknownPathRejected | src/config/models.py:9-23 | a tree holding anything at a key path outside `scraper.reddit.credentials` is rejected, at every depth |
| Models.SubredditsRejected | src/config/models.py:8-12 | a `subreddits` key under `scraper.reddit` is rejected |
| Models.CredentialsTaken | src/config/models.py:11 | a string at `scraper.reddit.credentials` in an accepted tree is the configuration's credentials |
| Loader.LoadConfig | src/config/loader.py:111-140 | locating, reading, checking, expanding, merging the environment, merging the caller's overrides and validating, step by step, give exactly the loader's result or error |
| Loader.MissingFileRejected | src/config/loader.py:126-130 | with `allow_missing=False` and no file found, loading fails with "not found", whatever the overrides |
| Loader.UnreadableFileRejected | src/config/loader.py:126-127 | a file that is found but cannot be read or parsed makes loading fail with that path, whatever `allow_missing` says |
| Loader.NothingGivenIsDefault | src/config/loader.py:116-140 | with no file, no `LBF__` variable and no caller overrides, loading gives the default configuration |
| Loader.CallerOverrideWins | src/config/loader.py:135-137 | a caller override leaf appears in the merged tree, over the environment and the file |
| Loader.EnvBeatsFile | src/config/loader.py:132-137 | an environment leaf appears in the merged tree wherever the caller's overrides do not reach |
| Loader.FileKeptWhenNotOverridden | src/config/loader.py:116-137 | at a key path neither the environment nor the caller touches, the merged tree holds what the expanded file holds |
| Loader.FileStringExpanded | src/config/loader.py:126-137 | a string the file holds at a key path that neither the environment nor the caller touches reaches the merged tree with its references expanded |
| Loader.CallerCredentialsWin | src/config/loader.py:135-140 | credentials given by the caller are the loaded configuration's credentials |
| Loader.EnvCredentialsBeatFile | src/config/loader.py:132-140 | without caller overrides, credentials from `LBF__SCRAPER__REDDIT__CREDENTIALS` are the loaded configuration's credentials |

## Left out

- YAML parsing and file reading are left out. `Host.readYaml` stands for
  `open` plus `yaml.safe_load`. A read or parse failure is `None`, reported as
  `Unreadable(path)`. The kinds of I/O and YAML errors are not told apart.
- The filesystem, the home directory and `Path.expanduser` are parameters
  (`Host`). Paths are plain strings. `pathlib`'s normalisation of a path's
  text (`./config.yaml` shown as `config.yaml`, doubled slashes) is not
  modelled.
- The process environment is an explicit list of name/value pairs. Its
  iteration order is the list order. Reading the real environment is left out.
- YAML values other than strings, lists, mappings, null, booleans and integers
  (floats, dates) are kept as opaque text. They are not interpreted.
- YAML mappings with non-string keys are not modelled. Keys are strings.
- Caller overrides that are mappings but not `dict`s are treated as `dict`s.
- Dictionaries are values. `_deep_merge` and `_insert_nested` return the
  updated mapping instead of mutating it in place. Object sharing between the
  merged data and the override trees is not modelled. It is not observable in
  the loader's result.
- EnvironmentOverrides.Lower: only ASCII letters are lowered. Python's
  `str.lower` also lowers non-ASCII letters.
- Models.ValidateReddit: `credentials` is kept as the given string. pydantic
  turns it into a `Path`, which normalises its text (for example `""` becomes
  `.`). A `Path` object given directly by a caller is not modelled.
- Models.ValidateDumpRoundTrip: the round trip holds in the string model of
  `credentials` only. pydantic does not validate defaults, so `AppConfig()`
  holds the string `""`, while a given `""` becomes `Path(".")`. Validating the
  dump of the defaults therefore differs from the defaults.
- Models.Validate: model instances inside the caller's overrides, such as
  `{"scraper": ScraperConfig(...)}`, cannot be represented in the tree.
  pydantic accepts them as they are.
- Models.Validate: only one validation error is reported. pydantic collects
  every error into one `ValidationError`.
- Logging setup (`src/common/logger_config.py`), scraped data types, the
  scrapers and `main.py` are not part of this model.
