/** `validateRepo`: the guarded, canonical repository path and a verdict
    on whether it holds a usable module configuration. */
module RepoHealth {
  import opened Wrappers
  import opened Text
  import opened Paths
  import opened HostFs
  import opened PathGuard
  import opened ConfigLocator
  import opened ConfigFile

  const REQUIRED_ARTIFACTS: seq<string> := ["bmm/config.yaml"]
  const OPTIONAL_ARTIFACTS: seq<string> := []

  /** The tagged verdict. `validatedAt` is the caller-supplied timestamp. */
  datatype HealthResult =
    | Healthy(repoPath: Path, artifacts: seq<string>, validatedAt: string, displayName: Option<string>,
              configPath: Option<Path>, outputFolder: Option<Path>)
    | Unhealthy(repoPath: Path, missing: seq<string>, validatedAt: string, displayName: Option<string>,
                configPath: Option<Path>, outputFolder: Option<Path>)

  /** The optional artifacts present below the repository, in table order. */
  function OptionalFound(h: Host, canonical: Path, artifacts: seq<string>): seq<string>
    decreases |artifacts|
  {
    if artifacts == [] then []
    else
      var init := artifacts[..|artifacts| - 1];
      var last := artifacts[|artifacts| - 1];
      OptionalFound(h, canonical, init) + (if FileExists(h, Resolve(canonical, last)) then [last] else [])
  }

  /** The verdict on an authorized canonical path. */
  function Inspect(h: Host, canonical: Path, displayName: Option<string>, validatedAt: string): HealthResult {
    if !DirectoryExists(h, canonical) then
      Unhealthy(canonical, REQUIRED_ARTIFACTS, validatedAt, displayName, None, None)
    else match Locate(h, canonical)
      case None => Unhealthy(canonical, REQUIRED_ARTIFACTS, validatedAt, displayName, None, None)
      case Some(config) => InspectConfig(h, canonical, config, displayName, validatedAt)
  }

  /** The verdict once the configuration `config` is located: reading it
      failing counts as the configuration missing. */
  function InspectConfig(h: Host, canonical: Path, config: Path, displayName: Option<string>, validatedAt: string)
    : HealthResult
  {
    match ReadFile(h, config)
    case None => Unhealthy(canonical, REQUIRED_ARTIFACTS, validatedAt, displayName, Some(config), None)
    case Some(text) => InspectOutput(h, canonical, config, ExtractOutputFolder(text), displayName, validatedAt)
  }

  /** The verdict once the declared output folder, if any, is known. */
  function InspectOutput(h: Host, canonical: Path, config: Path, token: Option<string>,
                         displayName: Option<string>, validatedAt: string): HealthResult
  {
    var found := [Relative(canonical, config)];
    var optional := OptionalFound(h, canonical, OPTIONAL_ARTIFACTS);
    // a declared value that trims to nothing counts as absent: `Trim(v) == ""`
    // holds exactly when `AllSpace(v)`
    if token.None? || AllSpace(token.value) then
      Healthy(canonical, found + optional, validatedAt, displayName, Some(config), None)
    else
      var output := OutputLocation(canonical, token.value);
      var relativeOutput := RelativeOrDot(canonical, output);
      if ReadableDirectory(h, output) then
        Healthy(canonical, found + [relativeOutput] + optional, validatedAt, displayName, Some(config), Some(output))
      else
        Unhealthy(canonical, [relativeOutput], validatedAt, displayName, Some(config), Some(output))
  }

  /** The path `validateRepo` works on, before and after `realpath`. */
  function ResolvedPath(h: Host, raw: string): Path {
    Resolve(h.cwd, Trim(raw))
  }

  function CanonicalPath(h: Host, raw: string): Path {
    ResolveCanonicalPath(h, ResolvedPath(h, raw))
  }

  /** The guards `validateRepo` and `removeRepo` share: the trimmed input
      must not be blank, and the resolved path and then its canonical form
      must both lie inside an allowed root. The canonical path, or the
      `RepoPathError` thrown. */
  function Authorize(h: Host, roots: seq<Path>, raw: string): Result<Path, RepoPathError> {
    if AllSpace(raw) then Failure(RequiredError)
    else if !IsAllowed(roots, ResolvedPath(h, raw)) then Failure(OutsideRootsError)
    else if !IsAllowed(roots, CanonicalPath(h, raw)) then Failure(OutsideRootsError)
    else Success(CanonicalPath(h, raw))
  }

  /** What `validateRepo(raw, displayName)` answers: a thrown
      `RepoPathError`, or a verdict. */
  function Evaluate(h: Host, roots: seq<Path>, raw: string, displayName: Option<string>, validatedAt: string)
    : Result<HealthResult, RepoPathError>
  {
    match Authorize(h, roots, raw)
    case Failure(e) => Failure(e)
    case Success(canonical) => Success(Inspect(h, canonical, displayName, validatedAt))
  }

  /** `normalizeRepoPath`, `assertAllowedRepoPath`, `resolveCanonicalPath`,
      `assertAllowedRepoPath`, in that order. */
  method AuthorizeRepoPath(h: Host, roots: seq<Path>, raw: string) returns (r: Result<Path, RepoPathError>)
    ensures r == Authorize(h, roots, raw)
  {
    var normalized := NormalizeRepoPath(h.cwd, raw);
    if normalized.Failure? {
      return Failure(normalized.error);
    }
    var resolved := normalized.value;
    var check := AssertAllowedRepoPath(roots, resolved);
    if check.Fail? {
      return Failure(check.error);
    }
    var canonical := ResolveCanonicalPath(h, resolved);
    check := AssertAllowedRepoPath(roots, canonical);
    if check.Fail? {
      return Failure(check.error);
    }
    return Success(canonical);
  }

  /** `validateRepo`: the guards, then the inspection of the canonical path. */
  method ValidateRepo(h: Host, roots: seq<Path>, raw: string, displayName: Option<string>, validatedAt: string)
    returns (r: Result<HealthResult, RepoPathError>)
    ensures r == Evaluate(h, roots, raw, displayName, validatedAt)
  {
    var authorized := AuthorizeRepoPath(h, roots, raw);
    if authorized.Failure? {
      return Failure(authorized.error);
    }
    var verdict := InspectRepo(h, authorized.value, displayName, validatedAt);
    return Success(verdict);
  }

  /** The part of `validateRepo` after both guards have passed. */
  method InspectRepo(h: Host, canonical: Path, displayName: Option<string>, validatedAt: string)
    returns (r: HealthResult)
    ensures r == Inspect(h, canonical, displayName, validatedAt)
  {
    if !DirectoryExists(h, canonical) {
      return Unhealthy(canonical, REQUIRED_ARTIFACTS, validatedAt, displayName, None, None);
    }
    ghost var examined: seq<Path>;
    var configPath;
    configPath, examined := FindBmmConfig(h, canonical);
    if configPath.None? {
      return Unhealthy(canonical, REQUIRED_ARTIFACTS, validatedAt, displayName, None, None);
    }
    var config := configPath.value;
    r := InspectConfigFile(h, canonical, config, displayName, validatedAt);
  }

  /** The loop over the optional artifacts: those present below the
      repository, in table order. */
  method CollectOptional(h: Host, canonical: Path, artifacts: seq<string>) returns (found: seq<string>)
    ensures found == OptionalFound(h, canonical, artifacts)
  {
    found := [];
    for i := 0 to |artifacts|
      invariant found == OptionalFound(h, canonical, artifacts[..i])
    {
      var artifact := artifacts[i];
      assert artifacts[..i + 1][..i] == artifacts[..i];
      if FileExists(h, Resolve(canonical, artifact)) {
        found := found + [artifact];
      }
    }
    assert artifacts[..|artifacts|] == artifacts;
  }

  /** The part of `validateRepo` that reads the located configuration; a
      failed read puts the required artifacts into `missing`. */
  method InspectConfigFile(h: Host, canonical: Path, config: Path, displayName: Option<string>, validatedAt: string)
    returns (r: HealthResult)
    ensures r == InspectConfig(h, canonical, config, displayName, validatedAt)
  {
    var rawConfig := ReadFile(h, config);
    if rawConfig.None? {
      var missing: seq<string> := [];
      missing := missing + REQUIRED_ARTIFACTS;
      assert missing == REQUIRED_ARTIFACTS;
      return Unhealthy(canonical, missing, validatedAt, displayName, Some(config), None);
    }
    var outputToken := ExtractOutputFolder(rawConfig.value);
    r := InspectDeclaration(h, canonical, config, outputToken, displayName, validatedAt);
  }

  /** The rest of `validateRepo`: the configuration path goes into
      `foundArtifacts`, the declared output folder, when there is one, into
      `foundArtifacts` or `missing`, then the optional artifacts. */
  method InspectDeclaration(h: Host, canonical: Path, config: Path, outputToken: Option<string>,
                            displayName: Option<string>, validatedAt: string)
    returns (r: HealthResult)
    ensures r == InspectOutput(h, canonical, config, outputToken, displayName, validatedAt)
  {
    var foundArtifacts: seq<string> := [];
    foundArtifacts := foundArtifacts + [Relative(canonical, config)];
    var found, missing, outputFolder := DeclaredOutput(h, canonical, outputToken);
    foundArtifacts := foundArtifacts + found;
    var optional := CollectOptional(h, canonical, OPTIONAL_ARTIFACTS);
    foundArtifacts := foundArtifacts + optional;

    if |missing| > 0 {
      return Unhealthy(canonical, missing, validatedAt, displayName, Some(config), outputFolder);
    }
    return Healthy(canonical, foundArtifacts, validatedAt, displayName, Some(config), outputFolder);
  }

  /** The declared output folder's step of `validateRepo`: nothing when no
      non-blank value is declared; otherwise its location, and its path
      relative to the repository, which is found when it is a readable
      directory and missing otherwise. */
  method DeclaredOutput(h: Host, canonical: Path, outputToken: Option<string>)
    returns (found: seq<string>, missing: seq<string>, outputFolder: Option<Path>)
    ensures outputToken.None? || AllSpace(outputToken.value) ==> found == [] && missing == [] && outputFolder.None?
    ensures outputToken.Some? && !AllSpace(outputToken.value) ==>
              var output := OutputLocation(canonical, outputToken.value);
              && outputFolder == Some(output)
              && (ReadableDirectory(h, output) ==> found == [RelativeOrDot(canonical, output)] && missing == [])
              && (!ReadableDirectory(h, output) ==> found == [] && missing == [RelativeOrDot(canonical, output)])
  {
    found, missing, outputFolder := [], [], None;
    if outputToken.Some? && !AllSpace(outputToken.value) {
      var outputPath := OutputLocation(canonical, outputToken.value);
      outputFolder := Some(outputPath);
      var relativeOutput := RelativeOrDot(canonical, outputPath);
      if ReadableDirectory(h, outputPath) {
        found := found + [relativeOutput];
      } else {
        missing := missing + [relativeOutput];
      }
    }
  }

  // ---- what the verdict promises ----

  /** The inputs are echoed: the repository path is the canonical path,
      and the display name and timestamp are passed through unchanged. */
  lemma VerdictEchoesInputs(h: Host, canonical: Path, displayName: Option<string>, validatedAt: string)
    ensures var v := Inspect(h, canonical, displayName, validatedAt);
            v.repoPath == canonical && v.displayName == displayName && v.validatedAt == validatedAt
  {
    if DirectoryExists(h, canonical) && Locate(h, canonical).Some? {
      var config := Locate(h, canonical).value;
      if ReadFile(h, config).Some? {
        OutputEchoes(h, canonical, config, ExtractOutputFolder(ReadFile(h, config).value), displayName, validatedAt);
      }
    }
  }

  lemma OutputEchoes(h: Host, canonical: Path, config: Path, token: Option<string>,
                     displayName: Option<string>, validatedAt: string)
    ensures var v := InspectOutput(h, canonical, config, token, displayName, validatedAt);
            v.repoPath == canonical && v.displayName == displayName && v.validatedAt == validatedAt
  {
  }

  /** Errors: blank input is refused with 400 before anything else; a
      path outside every root, before or after `realpath`, with 403. */
  lemma AuthorizeRejects(h: Host, roots: seq<Path>, raw: string)
    ensures var r := Authorize(h, roots, raw);
            && (AllSpace(raw) ==> r == Failure(RequiredError))
            && (!AllSpace(raw) ==>
                  (r.Failure? <==> !IsAllowed(roots, ResolvedPath(h, raw)) || !IsAllowed(roots, CanonicalPath(h, raw))))
            && (r.Failure? ==> (r.error.statusCode == 400 <==> AllSpace(raw)) && (r.error.statusCode == 403 <==> !AllSpace(raw)))
            && (r.Success? ==> r.value == CanonicalPath(h, raw))
  {
  }

  /** The trust boundary: a path is only ever authorized when, both as
      resolved and as canonical, it is a descendant of an allowed root
      (never a sibling reached through `..`); when `realpath` fails the
      resolved path itself is the canonical one. */
  lemma AuthorizedPathInside(h: Host, roots: seq<Path>, raw: string)
    requires WellFormedHost(h) && AllValid(roots)
    ensures var r := Authorize(h, roots, raw);
            r.Success? ==>
              && (exists i :: 0 <= i < |roots| && InsideBySegments(roots[i], ResolvedPath(h, raw)))
              && (exists i :: 0 <= i < |roots| && InsideBySegments(roots[i], r.value))
              && (Realpath(h, ResolvedPath(h, raw)).None? ==> r.value == ResolvedPath(h, raw))
  {
    var r := Authorize(h, roots, raw);
    if r.Success? {
      var resolved := ResolvedPath(h, raw);
      assert ValidPath(resolved);
      var canonical := CanonicalPath(h, raw);
      assert ValidPath(canonical);
      AllowedCharacterization(roots, resolved);
      AllowedCharacterization(roots, canonical);
    }
  }

  /** `validateRepo` throws exactly what the guards throw; otherwise its
      verdict is about the authorized canonical path and echoes the display
      name and timestamp. */
  lemma EvaluateAfterGuards(h: Host, roots: seq<Path>, raw: string, displayName: Option<string>, validatedAt: string)
    ensures var r := Evaluate(h, roots, raw, displayName, validatedAt);
            var a := Authorize(h, roots, raw);
            && (r.Failure? <==> a.Failure?)
            && (r.Failure? ==> r.error == a.error)
            && (r.Success? ==> r.value.repoPath == a.value && r.value.displayName == displayName
                               && r.value.validatedAt == validatedAt)
  {
    var a := Authorize(h, roots, raw);
    if a.Success? {
      VerdictEchoesInputs(h, a.value, displayName, validatedAt);
    }
  }

  /** A missing directory, or an existing one without a configuration
      anywhere the lookup looks, is reported as the required artifacts
      missing. */
  lemma NoConfigMeansRequiredMissing(h: Host, canonical: Path, displayName: Option<string>, validatedAt: string)
    requires DirectoryExists(h, canonical) ==>
               && !FileExists(h, PreferredHidden(canonical)) && !FileExists(h, PreferredPlain(canonical))
               && forall d :: Reachable(h, canonical, d) ==> !HasConfig(h, d)
    ensures Inspect(h, canonical, displayName, validatedAt)
         == Unhealthy(canonical, REQUIRED_ARTIFACTS, validatedAt, displayName, None, None)
  {
    if DirectoryExists(h, canonical) {
      LocateSearch(h, canonical);
    }
  }

  /** A verdict is unhealthy exactly when something is missing. */
  lemma UnhealthyHasMissing(h: Host, canonical: Path, displayName: Option<string>, validatedAt: string)
    ensures var v := Inspect(h, canonical, displayName, validatedAt);
            v.Unhealthy? ==> |v.missing| >= 1
  {
  }

  /** A healthy verdict: the configuration was found below the repository
      and read; `artifacts` holds its relative path first, then the output
      folder exactly when one is declared, which is then a readable
      directory. Since there are no optional artifacts, that is all. */
  lemma HealthyArtifacts(h: Host, canonical: Path, displayName: Option<string>, validatedAt: string)
    ensures var v := Inspect(h, canonical, displayName, validatedAt);
            v.Healthy? ==>
              && v.configPath.Some?
              && Locate(h, canonical) == v.configPath
              && FileExists(h, v.configPath.value) && ReadFile(h, v.configPath.value).Some?
              && IsPrefix(canonical, v.configPath.value)
              && 1 <= |v.artifacts| <= 2
              && v.artifacts[0] == Join(v.configPath.value[|canonical|..], '/')
              && (|v.artifacts| == 2 <==> v.outputFolder.Some?)
              && (v.outputFolder.Some? ==>
                    ReadableDirectory(h, v.outputFolder.value)
                    && v.artifacts[1] == RelativeOrDot(canonical, v.outputFolder.value))
  {
    LocateBelowRoot(h, canonical);
    if DirectoryExists(h, canonical) && Locate(h, canonical).Some? {
      var config := Locate(h, canonical).value;
      if ReadFile(h, config).Some? {
        var token := ExtractOutputFolder(ReadFile(h, config).value);
        HealthyOutputArtifacts(h, canonical, config, token, displayName, validatedAt);
      }
    }
  }

  /** The healthy verdicts once the configuration below the repository is
      read. */
  lemma HealthyOutputArtifacts(h: Host, canonical: Path, config: Path, token: Option<string>,
                               displayName: Option<string>, validatedAt: string)
    requires IsPrefix(canonical, config)
    ensures var v := InspectOutput(h, canonical, config, token, displayName, validatedAt);
            v.Healthy? ==>
              && v.configPath == Some(config)
              && 1 <= |v.artifacts| <= 2
              && v.artifacts[0] == Join(config[|canonical|..], '/')
              && (|v.artifacts| == 2 <==> v.outputFolder.Some?)
              && (v.outputFolder.Some? ==>
                    ReadableDirectory(h, v.outputFolder.value)
                    && v.artifacts[1] == RelativeOrDot(canonical, v.outputFolder.value))
  {
    assert config == canonical + config[|canonical|..];
    RelativeToDescendant(canonical, config[|canonical|..]);
    assert OptionalFound(h, canonical, OPTIONAL_ARTIFACTS) == [];
  }

  /** An unhealthy verdict reports either the required artifacts (no
      directory, no configuration, or a configuration that cannot be read)
      or exactly the declared output folder, which is then not a readable
      directory; a configuration that was located is always reported. */
  lemma UnhealthyMissing(h: Host, canonical: Path, displayName: Option<string>, validatedAt: string)
    ensures var v := Inspect(h, canonical, displayName, validatedAt);
            v.Unhealthy? ==>
              && (v.configPath == Locate(h, canonical) || !DirectoryExists(h, canonical))
              && ((v.missing == REQUIRED_ARTIFACTS && v.outputFolder.None?)
                  || (v.outputFolder.Some? && !ReadableDirectory(h, v.outputFolder.value)
                      && v.missing == [RelativeOrDot(canonical, v.outputFolder.value)]))
  {
  }

  /** When the located configuration cannot be read, the verdict is
      unhealthy with the required artifacts missing and still names the
      configuration. */
  lemma UnreadableConfig(h: Host, canonical: Path, displayName: Option<string>, validatedAt: string)
    requires DirectoryExists(h, canonical) && Locate(h, canonical).Some?
    requires ReadFile(h, Locate(h, canonical).value).None?
    ensures Inspect(h, canonical, displayName, validatedAt)
         == Unhealthy(canonical, REQUIRED_ARTIFACTS, validatedAt, displayName, Locate(h, canonical), None)
  {
  }

  /** When is a repository healthy: its directory exists, a configuration
      is located and read, and its declared output folder, if any, is a
      readable directory. */
  lemma HealthyExactly(h: Host, canonical: Path, displayName: Option<string>, validatedAt: string)
    ensures Inspect(h, canonical, displayName, validatedAt).Healthy? <==>
              && DirectoryExists(h, canonical)
              && Locate(h, canonical).Some?
              && ReadFile(h, Locate(h, canonical).value).Some?
              && var token := ExtractOutputFolder(ReadFile(h, Locate(h, canonical).value).value);
                 (token.None? || AllSpace(token.value) || ReadableDirectory(h, OutputLocation(canonical, token.value)))
  {
  }

  /** The literal-name quirk: for a `.bmad/bmm/config.yaml` layout whose
      file cannot be read, `missing` still names `bmm/config.yaml` while
      the configuration path is the hidden one. */
  lemma HiddenLayoutReportsPlainName(h: Host, canonical: Path, displayName: Option<string>, validatedAt: string)
    requires DirectoryExists(h, canonical) && FileExists(h, PreferredHidden(canonical))
    requires ReadFile(h, PreferredHidden(canonical)).None?
    ensures var v := Inspect(h, canonical, displayName, validatedAt);
            v.Unhealthy? && v.missing == ["bmm/config.yaml"]
            && v.configPath == Some(canonical + [".bmad", "bmm", "config.yaml"])
  {
  }

  /** The usual layout with no declared output folder: healthy, with
      `bmm/config.yaml` as the only artifact. */
  lemma PlainLayoutHealthy(h: Host, canonical: Path, text: string, displayName: Option<string>, validatedAt: string)
    requires DirectoryExists(h, canonical)
    requires !FileExists(h, PreferredHidden(canonical)) && FileExists(h, PreferredPlain(canonical))
    requires ReadFile(h, PreferredPlain(canonical)) == Some(text) && ExtractOutputFolder(text).None?
    ensures Inspect(h, canonical, displayName, validatedAt)
         == Healthy(canonical, ["bmm/config.yaml"], validatedAt, displayName, Some(PreferredPlain(canonical)), None)
  {
    var config := PreferredPlain(canonical);
    LocatePreferred(h, canonical);
    assert Inspect(h, canonical, displayName, validatedAt)
        == InspectOutput(h, canonical, config, None, displayName, validatedAt);
    PlainConfigRelative(canonical);
    assert OptionalFound(h, canonical, OPTIONAL_ARTIFACTS) == [];
  }

  /** The usual configuration is reported as `bmm/config.yaml`. */
  lemma PlainConfigRelative(canonical: Path)
    ensures Relative(canonical, PreferredPlain(canonical)) == "bmm/config.yaml"
  {
    RelativeToDescendant(canonical, [CONFIG_DIR_NAME, CONFIG_BASENAME]);
    JoinPair(CONFIG_DIR_NAME, CONFIG_BASENAME, '/');
  }

  /** The configuration of the hidden layout is reported as
      `.bmad/bmm/config.yaml`. */
  lemma HiddenConfigRelative(canonical: Path)
    ensures Relative(canonical, PreferredHidden(canonical)) == ".bmad/bmm/config.yaml"
  {
    RelativeToDescendant(canonical, [".bmad", CONFIG_DIR_NAME, CONFIG_BASENAME]);
    assert [".bmad", CONFIG_DIR_NAME, CONFIG_BASENAME][1..] == [CONFIG_DIR_NAME, CONFIG_BASENAME];
    JoinPair(CONFIG_DIR_NAME, CONFIG_BASENAME, '/');
  }

  /** The shipped declaration `output_folder: '{project-root}/devDocs'`, in
      whichever configuration the lookup settles on: the `devDocs` folder of
      the repository is reported as `devDocs`, in `artifacts` after the
      configuration's relative path when it is a readable directory, and in
      `missing` otherwise. */
  lemma DevDocsDeclaration(h: Host, canonical: Path, displayName: Option<string>, validatedAt: string)
    requires ValidPath(canonical) && DirectoryExists(h, canonical)
    requires Locate(h, canonical).Some? && ReadFile(h, Locate(h, canonical).value) == Some(SHIPPED_DECLARATION)
    ensures var v := Inspect(h, canonical, displayName, validatedAt);
            var config := Locate(h, canonical).value;
            && v.configPath == Some(config)
            && v.outputFolder == Some(canonical + [DEV_DOCS])
            && (ReadableDirectory(h, canonical + [DEV_DOCS]) ==>
                  v.Healthy? && v.artifacts == [Relative(canonical, config), DEV_DOCS])
            && (!ReadableDirectory(h, canonical + [DEV_DOCS]) ==> v.Unhealthy? && v.missing == [DEV_DOCS])
  {
    var config := Locate(h, canonical).value;
    ExtractProjectRootDevDocs();
    assert Inspect(h, canonical, displayName, validatedAt)
        == InspectOutput(h, canonical, config, Some(SHIPPED_OUTPUT_FOLDER), displayName, validatedAt);
    DevDocsOutput(h, canonical, config, displayName, validatedAt);
  }

  /** The hidden layout `.bmad/bmm/config.yaml` holding the shipped
      declaration, with a readable `devDocs`: healthy, listing both. */
  lemma DevDocsHiddenLayout(h: Host, canonical: Path, displayName: Option<string>, validatedAt: string)
    requires ValidPath(canonical) && DirectoryExists(h, canonical)
    requires ReadFile(h, PreferredHidden(canonical)) == Some(SHIPPED_DECLARATION)
    requires ReadableDirectory(h, canonical + [DEV_DOCS])
    ensures var v := Inspect(h, canonical, displayName, validatedAt);
            v.Healthy? && v.artifacts == [".bmad/bmm/config.yaml", DEV_DOCS]
  {
    LocatePreferred(h, canonical);
    DevDocsDeclaration(h, canonical, displayName, validatedAt);
    HiddenConfigRelative(canonical);
  }

  /** The plain layout `bmm/config.yaml` holding the shipped declaration,
      with a readable `devDocs`: healthy, listing both. */
  lemma DevDocsPlainLayout(h: Host, canonical: Path, displayName: Option<string>, validatedAt: string)
    requires ValidPath(canonical) && DirectoryExists(h, canonical)
    requires !FileExists(h, PreferredHidden(canonical))
    requires ReadFile(h, PreferredPlain(canonical)) == Some(SHIPPED_DECLARATION)
    requires ReadableDirectory(h, canonical + [DEV_DOCS])
    ensures var v := Inspect(h, canonical, displayName, validatedAt);
            v.Healthy? && v.artifacts == ["bmm/config.yaml", DEV_DOCS]
  {
    LocatePreferred(h, canonical);
    DevDocsDeclaration(h, canonical, displayName, validatedAt);
    PlainConfigRelative(canonical);
  }

  /** The verdict once `{project-root}/devDocs` is read from `config`. */
  lemma DevDocsOutput(h: Host, canonical: Path, config: Path, displayName: Option<string>, validatedAt: string)
    requires ValidPath(canonical)
    ensures var v := InspectOutput(h, canonical, config, Some(SHIPPED_OUTPUT_FOLDER), displayName, validatedAt);
            && v.configPath == Some(config)
            && v.outputFolder == Some(canonical + [DEV_DOCS])
            && (ReadableDirectory(h, canonical + [DEV_DOCS]) ==>
                  v.Healthy? && v.artifacts == [Relative(canonical, config), DEV_DOCS])
            && (!ReadableDirectory(h, canonical + [DEV_DOCS]) ==> v.Unhealthy? && v.missing == [DEV_DOCS])
  {
    DevDocsBelowRepository(canonical);
    RelativeToDescendant(canonical, [DEV_DOCS]);
    assert Join([DEV_DOCS], '/') == DEV_DOCS;
    assert !AllSpace(SHIPPED_OUTPUT_FOLDER) by {
      assert SHIPPED_OUTPUT_FOLDER[0] == PROJECT_ROOT_TOKEN[0] == '{';
    }
    assert OptionalFound(h, canonical, OPTIONAL_ARTIFACTS) == [];
  }
}
