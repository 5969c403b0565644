/**
 * Dataset configuration: the YAML mapping that names the raw, converted and
 * assembled roots, the manifest, and whether the Z-map channel is used.
 * Relative paths are resolved against the repository root, never against
 * the working directory. The document arrives already parsed as a `Value`
 * tree; the repository root is a parameter.
 */
module Paths {
  import opened Wrappers
  import opened Strings
  import opened Fs

  /** A parsed YAML value (mapping keys are strings here). */
  datatype Value =
    | Null
    | Bool(b: bool)
    | Int(i: int)
    | Real(r: real)
    | Str(s: string)
    | List(items: seq<Value>)
    | Map(entries: map<string, Value>)

  /** Python's `bool(v)`. */
  predicate Truthy(v: Value)
  {
    match v
    case Null => false
    case Bool(b) => b
    case Int(i) => i != 0
    case Real(r) => r != 0.0
    case Str(s) => |s| > 0
    case List(items) => |items| > 0
    case Map(entries) => |entries| > 0
  }

  const RawRootKey: string := "raw_root"
  const ConvertedRootKey: string := "converted_root"
  const NnunetRawRootKey: string := "nnunet_raw_root"
  const ManifestKey: string := "manifest"
  const TypeKey: string := "type"
  const PathKey: string := "path"
  const UseZmapKey: string := "use_zmap"

  /** The manifest type used when the configuration names none. */
  const DefaultManifestType: Value := Str("subset")

  datatype DatasetPaths = DatasetPaths(
    rawRoot: string,
    convertedRoot: string,
    nnunetRawRoot: string,
    manifestsType: Value,
    manifestsPath: string,
    useZmap: bool)

  predicate IsAbsolute(p: string)
  {
    |p| > 0 && p[0] == '/'
  }

  /**
   * `load_yaml`: `present` says whether the file exists, `parsed` is what the
   * YAML parser made of it. Anything but a mapping is rejected.
   */
  function LoadYaml(path: string, present: bool, parsed: Value): (r: Result<map<string, Value>, Error>)
    ensures r.Ok? <==> present && parsed.Map?
    ensures !present ==> r == Err(ConfigNotFound(path))
    ensures present && !parsed.Map? ==> r == Err(ConfigNotMapping(path))
    ensures r.Ok? ==> r.value == parsed.entries
  {
    if !present then Err(ConfigNotFound(path))
    else if !parsed.Map? then Err(ConfigNotMapping(path))
    else Ok(parsed.entries)
  }

  /** `resolve_from_repo`: an absolute path is kept, a relative one is put under the repository root. */
  function ResolveFromRepo(repoRoot: string, p: string): (r: string)
    requires IsAbsolute(repoRoot)
    ensures IsAbsolute(r)
    ensures IsAbsolute(p) ==> r == p
    ensures !IsAbsolute(p) ==> StartsWith(r, repoRoot + "/") && EndsWith(r, p)
    ensures !IsAbsolute(p) ==> |r| == |repoRoot| + 1 + |p|
  {
    if IsAbsolute(p) then p
    else
      var r := repoRoot + "/" + p;
      assert r[..|repoRoot| + 1] == repoRoot + "/";
      assert r[|r| - |p|..] == p;
      Join(repoRoot, p)
  }

  /** One configured path, resolved against the repository root: the key must be present and hold a string. */
  function ResolveEntry(repoRoot: string, m: map<string, Value>, key: string): (r: Result<string, Error>)
    requires IsAbsolute(repoRoot)
    ensures key !in m ==> r == Err(MissingKey(key))
    ensures key in m && !m[key].Str? ==> r == Err(NotAPath(key))
    ensures r.Ok? <==> key in m && m[key].Str?
  {
    if key !in m then Err(MissingKey(key))
    else match m[key]
      case Str(p) => Ok(ResolveFromRepo(repoRoot, p))
      case _ => Err(NotAPath(key))
  }

  /** `load_dataset_paths` on a parsed configuration document. */
  function LoadDatasetPaths(repoRoot: string, configPath: string, present: bool, parsed: Value): (r: Result<DatasetPaths, Error>)
    requires IsAbsolute(repoRoot)
  {
    var cfg :- LoadYaml(configPath, present, parsed);
    var rawRoot :- ResolveEntry(repoRoot, cfg, RawRootKey);
    var convertedRoot :- ResolveEntry(repoRoot, cfg, ConvertedRootKey);
    var nnunetRawRoot :- ResolveEntry(repoRoot, cfg, NnunetRawRootKey);
    var manifest := if ManifestKey in cfg then cfg[ManifestKey] else Map(map[]);
    if !manifest.Map? then Err(ManifestSectionNotMapping)
    else
      var manifestsType := if TypeKey in manifest.entries then manifest.entries[TypeKey] else DefaultManifestType;
      var manifestsPath :- ResolveEntry(repoRoot, manifest.entries, PathKey);
      var useZmap := UseZmapKey in cfg && Truthy(cfg[UseZmapKey]);
      Ok(DatasetPaths(rawRoot, convertedRoot, nnunetRawRoot, manifestsType, manifestsPath, useZmap))
  }

  /** Loading the configuration, with the configuration file read from a snapshot. */
  function LoadDatasetPathsFrom(repoRoot: string, fs: FileSystem, configPath: string, docs: map<string, Value>): Result<DatasetPaths, Error>
    requires IsAbsolute(repoRoot)
  {
    LoadDatasetPaths(repoRoot, configPath, configPath in fs.paths, if configPath in docs then docs[configPath] else Null)
  }

  // ---------------------------------------------------------------------
  // Properties.

  /** Resolving twice is resolving once. */
  lemma ResolveIdempotent(repoRoot: string, p: string)
    requires IsAbsolute(repoRoot)
    ensures ResolveFromRepo(repoRoot, ResolveFromRepo(repoRoot, p)) == ResolveFromRepo(repoRoot, p)
  {
  }

  /** A configuration is accepted exactly when every required entry is there with the right kind of value. */
  predicate WellFormedConfig(cfg: map<string, Value>)
  {
    && RawRootKey in cfg && cfg[RawRootKey].Str?
    && ConvertedRootKey in cfg && cfg[ConvertedRootKey].Str?
    && NnunetRawRootKey in cfg && cfg[NnunetRawRootKey].Str?
    && ManifestKey in cfg && cfg[ManifestKey].Map?
    && PathKey in cfg[ManifestKey].entries && cfg[ManifestKey].entries[PathKey].Str?
  }

  lemma LoadDatasetPathsOkIff(repoRoot: string, configPath: string, present: bool, parsed: Value)
    requires IsAbsolute(repoRoot)
    ensures LoadDatasetPaths(repoRoot, configPath, present, parsed).Ok? <==>
      present && parsed.Map? && WellFormedConfig(parsed.entries)
  {
  }

  /**
   * What an accepted configuration yields: every path absolute and taken from
   * its entry, the manifest type defaulting to `subset`, and the Z-map flag
   * the truthiness of `use_zmap`, false when absent.
   */
  lemma LoadDatasetPathsFields(repoRoot: string, configPath: string, present: bool, parsed: Value)
    requires IsAbsolute(repoRoot)
    requires LoadDatasetPaths(repoRoot, configPath, present, parsed).Ok?
    ensures var d := LoadDatasetPaths(repoRoot, configPath, present, parsed).value;
      var cfg := parsed.entries;
      var manifest := cfg[ManifestKey].entries;
      && d.rawRoot == ResolveFromRepo(repoRoot, cfg[RawRootKey].s)
      && d.convertedRoot == ResolveFromRepo(repoRoot, cfg[ConvertedRootKey].s)
      && d.nnunetRawRoot == ResolveFromRepo(repoRoot, cfg[NnunetRawRootKey].s)
      && d.manifestsPath == ResolveFromRepo(repoRoot, manifest[PathKey].s)
      && d.manifestsType == (if TypeKey in manifest then manifest[TypeKey] else Str("subset"))
      && d.useZmap == (UseZmapKey in cfg && Truthy(cfg[UseZmapKey]))
      && IsAbsolute(d.rawRoot) && IsAbsolute(d.convertedRoot) && IsAbsolute(d.nnunetRawRoot)
      && IsAbsolute(d.manifestsPath)
  {
    LoadDatasetPathsOkIff(repoRoot, configPath, present, parsed);
  }

  /**
   * Without a `manifest` section the defaults cannot help: the empty default
   * mapping has no `path`, so loading fails on that key.
   */
  lemma NoManifestSectionFails(repoRoot: string, configPath: string, cfg: map<string, Value>)
    requires IsAbsolute(repoRoot)
    requires ManifestKey !in cfg
    requires RawRootKey in cfg && cfg[RawRootKey].Str?
    requires ConvertedRootKey in cfg && cfg[ConvertedRootKey].Str?
    requires NnunetRawRootKey in cfg && cfg[NnunetRawRootKey].Str?
    ensures LoadDatasetPaths(repoRoot, configPath, true, Map(cfg)) == Err(MissingKey(PathKey))
  {
  }

  /** The roots are checked in order: a missing `raw_root` is reported before anything else. */
  lemma MissingRawRootFirst(repoRoot: string, configPath: string, cfg: map<string, Value>)
    requires IsAbsolute(repoRoot) && RawRootKey !in cfg
    ensures LoadDatasetPaths(repoRoot, configPath, true, Map(cfg)) == Err(MissingKey(RawRootKey))
  {
  }
}
