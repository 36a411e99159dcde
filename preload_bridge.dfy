/** The desktop preload bridge: the document guards `assertRepoScoped` and
    `assertDocPath`, `readFileSafe`, and the `api` methods that validate a
    repository and then clear or persist the state. */
module PreloadBridge {
  import opened Wrappers
  import opened Text
  import opened Paths
  import opened HostFs
  import opened PathGuard
  import opened RepoHealth
  import opened StateStore
  import opened Reconcile

  const ALLOWED_DOC_PREFIX := "devDocs"
  /** The document `readStatus` reads: `devDocs/bmm-workflow-status.yaml`. */
  const STATUS_FILE := "bmm-workflow-status.yaml"
  const STATUS_PATH := ALLOWED_DOC_PREFIX + "/" + STATUS_FILE

  const ScopeError := RepoPathError("Path outside repo scope", 403, ForbiddenRepoPath)
  const InvalidDocError := RepoPathError("Invalid doc path", 400, InvalidRepoPath)
  const DocPrefixError := RepoPathError("Doc path must be under devDocs", 403, ForbiddenRepoPath)

  /** `assertRepoScoped(repoPath, targetPath)`: both are resolved against
      the working directory; the target must be the repository or lie
      below it by the same relative-path test as the allowlist. */
  function AssertRepoScoped(cwd: Path, repoPath: string, targetPath: string): (r: Outcome<RepoPathError>)
    ensures r.Pass? <==> IsPathInside(Resolve(cwd, repoPath), Resolve(cwd, targetPath))
    ensures r.Fail? ==> r.error == ScopeError
  {
    var repo := Resolve(cwd, repoPath);
    var target := Resolve(cwd, targetPath);
    var rel := Relative(repo, target);
    RelativeToDescendant(repo, []);
    assert repo + [] == repo;
    if target == repo || (!StartsWith(rel, "..") && !IsAbsoluteString(rel)) then Pass else Fail(ScopeError)
  }

  /** `assertDocPath`: an empty path or one containing `..` anywhere is
      invalid (400) before the prefix is looked at; one that does not start
      with the string `devDocs` is forbidden (403). */
  function AssertDocPath(rel: string): (r: Outcome<RepoPathError>)
    ensures r.Pass? <==> rel != "" && !Contains(rel, "..") && StartsWith(rel, ALLOWED_DOC_PREFIX)
    ensures r.Fail? && (rel == "" || Contains(rel, "..")) ==> r.error == InvalidDocError
    ensures r.Fail? && !(rel == "" || Contains(rel, "..")) ==> r.error == DocPrefixError
  {
    if rel == "" || Contains(rel, "..") then Fail(InvalidDocError)
    else if !StartsWith(rel, ALLOWED_DOC_PREFIX) then Fail(DocPrefixError)
    else Pass
  }

  /** What `readFileSafe` returns: the text and where it was read. */
  datatype DocFile = DocFile(content: string, path: Path)

  /** `readFileSafe(repoPath, relativePath)`: both guards, then the read. */
  function ReadFileSafe(h: Host, repoPath: string, rel: string): Result<DocFile, Fault> {
    match AssertDocPath(rel)
    case Fail(e) => Failure(PathFault(e))
    case Pass =>
      var targetPath := JoinString(repoPath, rel);
      match AssertRepoScoped(h.cwd, repoPath, targetPath)
      case Fail(e) => Failure(PathFault(e))
      case Pass =>
        var location := Resolve(h.cwd, targetPath);
        match ReadFile(h, location)
        case None => Failure(IoFault)
        case Some(content) => Success(DocFile(content, location))
  }

  /** A document path that passes `assertDocPath` can only name something
      below the repository, in a child whose name starts with `devDocs`;
      so `assertRepoScoped` never refuses it. */
  lemma DocPathStaysInRepo(cwd: Path, repoPath: string, rel: string)
    requires ValidPath(cwd)
    requires AssertDocPath(rel).Pass?
    ensures var repo := Resolve(cwd, repoPath);
            var target := Resolve(cwd, JoinString(repoPath, rel));
            && |target| > |repo| && IsPrefix(repo, target)
            && StartsWith(target[|repo|], ALLOWED_DOC_PREFIX)
            && AssertRepoScoped(cwd, repoPath, JoinString(repoPath, rel)).Pass?
  {
    var repo := Resolve(cwd, repoPath);
    var pieces := Split(rel, '/');
    assert rel[0] == 'd';
    assert !StartsWith(rel, "/");
    ResolveJoined(cwd, repoPath, rel);
    SplitAvoidsDotDot(rel, '/');
    WalkWithoutParent(repo, pieces);
    var kept := Kept(pieces);
    assert ValidPath(kept);
    SplitHeadStartsWith(rel, ALLOWED_DOC_PREFIX, '/');
    assert pieces[0][0] == 'd';
    assert kept[0] == pieces[0];
    assert !StartsWith(kept[0], "..");
    InsideOwnDescendant(repo, kept);
    assert (repo + kept)[..|repo|] == repo;
    assert (repo + kept)[|repo|] == kept[0];
  }

  /** The guards run before any read: when one refuses, the answer is that
      guard's error whatever the filesystem holds, and a document path that
      fails both is reported as an invalid document path. */
  lemma GuardsRunFirst(h1: Host, h2: Host, repoPath: string, rel: string)
    requires h1.cwd == h2.cwd
    ensures AssertDocPath(rel).Fail? ==>
              ReadFileSafe(h1, repoPath, rel) == ReadFileSafe(h2, repoPath, rel)
              == Failure(PathFault(AssertDocPath(rel).error))
    ensures AssertDocPath(rel).Pass? && AssertRepoScoped(h1.cwd, repoPath, JoinString(repoPath, rel)).Fail? ==>
              ReadFileSafe(h1, repoPath, rel) == ReadFileSafe(h2, repoPath, rel) == Failure(PathFault(ScopeError))
  {
  }

  /** A successful read returns the file's text from below the repository. */
  lemma ReadFileSafeReadsDocs(h: Host, repoPath: string, rel: string)
    requires ValidPath(h.cwd)
    ensures var r := ReadFileSafe(h, repoPath, rel);
            var repo := Resolve(h.cwd, repoPath);
            && (r.Success? ==>
                  && AssertDocPath(rel).Pass?
                  && ReadFile(h, r.value.path) == Some(r.value.content)
                  && IsPrefix(repo, r.value.path) && |r.value.path| > |repo|
                  && StartsWith(r.value.path[|repo|], ALLOWED_DOC_PREFIX))
            && (AssertDocPath(rel).Pass? ==> r.Success? || r == Failure(IoFault))
  {
    if AssertDocPath(rel).Pass? {
      DocPathStaysInRepo(h.cwd, repoPath, rel);
    }
  }

  /** `readStatus`. */
  function ReadStatus(h: Host, repoPath: string): Result<DocFile, Fault> {
    ReadFileSafe(h, repoPath, STATUS_PATH)
  }

  /** The fixed status path passes `assertDocPath`, and the status file is
      `devDocs/bmm-workflow-status.yaml` below the resolved repository. */
  lemma ReadStatusLocation(h: Host, repoPath: string)
    requires ValidPath(h.cwd)
    ensures AssertDocPath(STATUS_PATH).Pass?
    ensures var r := ReadStatus(h, repoPath);
            var file := Resolve(h.cwd, repoPath) + [ALLOWED_DOC_PREFIX, STATUS_FILE];
            && (r.Success? <==> ReadFile(h, file).Some?)
            && (r.Success? ==> r.value == DocFile(ReadFile(h, file).value, file))
  {
    StatusPathAccepted();
    StatusPathResolves(h.cwd, repoPath);
    DocPathStaysInRepo(h.cwd, repoPath, STATUS_PATH);
  }

  lemma StatusPathAccepted()
    ensures AssertDocPath(STATUS_PATH).Pass?
  {
    var dir: string := "devDocs";
    StatusPathSplits();
    StatusPathHasNoDotDot();
    assert STATUS_PATH[..7] == dir;
  }

  /** The status path has no `..` in it. */
  lemma StatusPathHasNoDotDot()
    ensures !Contains(STATUS_PATH, "..")
  {
    var s := STATUS_PATH;
    forall i | 0 <= i < |s| - 1 ensures s[i] != '.' || s[i + 1] != '.' {
    }
    NoAdjacentDots(s);
  }

  lemma StatusPathSplits()
    ensures Split(STATUS_PATH, '/') == [ALLOWED_DOC_PREFIX, STATUS_FILE]
  {
    StatusPiecesHaveNoSlash();
    SplitPair(STATUS_PATH, ALLOWED_DOC_PREFIX, STATUS_FILE, '/');
  }

  /** A string made of two separator-free pieces around one separator. */
  lemma SplitPair(s: string, a: string, b: string, sep: char)
    requires s == a + [sep] + b && sep !in a && sep !in b
    ensures Split(s, sep) == [a, b]
  {
    SplitNoSeparator(b, sep);
    SplitAppend(a, b, sep);
  }

  lemma StatusPathResolves(cwd: Path, repoPath: string)
    ensures Resolve(cwd, JoinString(repoPath, STATUS_PATH)) == Resolve(cwd, repoPath) + [ALLOWED_DOC_PREFIX, STATUS_FILE]
  {
    StatusPathSplits();
    assert STATUS_PATH[0] == 'd';
    StatusFileIsSegment();
    ResolveTwoPieces(cwd, repoPath, STATUS_PATH, ALLOWED_DOC_PREFIX, STATUS_FILE);
  }

  lemma StatusFileIsSegment()
    ensures ValidSegment(ALLOWED_DOC_PREFIX) && ValidSegment(STATUS_FILE)
  {
    StatusPiecesHaveNoSlash();
    assert |STATUS_FILE| == 24 && |ALLOWED_DOC_PREFIX| == 7;
  }

  lemma StatusPiecesHaveNoSlash()
    ensures '/' !in ALLOWED_DOC_PREFIX && '/' !in STATUS_FILE
  {
    var dir, name := ALLOWED_DOC_PREFIX, STATUS_FILE;
    forall i | 0 <= i < |dir| ensures dir[i] != '/' {
    }
    forall i | 0 <= i < |name| ensures name[i] != '/' {
    }
  }

  /** A relative path of two plain segments resolves to those two segments
      below the directory it is joined to. */
  lemma ResolveTwoPieces(cwd: Path, dir: string, rel: string, a: string, b: string)
    requires rel != "" && rel[0] != '/'
    requires Split(rel, '/') == [a, b] && ValidSegment(a) && ValidSegment(b)
    ensures Resolve(cwd, JoinString(dir, rel)) == Resolve(cwd, dir) + [a, b]
  {
    assert !StartsWith(rel, "/");
    ResolveJoined(cwd, dir, rel);
    WalkValid(Resolve(cwd, dir), [a, b]);
  }

  // ---- the state-changing `api` methods ----

  /** What `persistRepo` and `restoreRepo` resolve to: the verdict with the
      new state, or the "nothing to restore" answer. */
  datatype BridgeReply =
    | Verdict(verdict: HealthResult, state: RepositoryState)
    | NothingToRestore(status: string, message: string, state: RepositoryState)

  /** `api.persistRepo(repoPath, displayName)`: validate, then clear or
      persist. The timestamps are the caller's. */
  method PersistRepo(store: Store, h: Host, roots: seq<Path>, repoPath: string, displayName: Option<string>,
                     validatedAt: string, activeAt: string)
    returns (r: Result<BridgeReply, Fault>)
    modifies store
    ensures var e := Evaluate(h, roots, repoPath, displayName, validatedAt);
            && (e.Failure? ==> r == Failure(PathFault(e.error)) && store.file == old(store.file))
            && (e.Success? && store.dirOk && store.writeOk ==>
                  r == Success(Verdict(e.value, AfterVerdict(old(store.Contents()), e.value, activeAt)))
                  && store.Contents() == r.value.state)
            && (e.Success? && !(store.dirOk && store.writeOk) ==>
                  r == Failure(IoFault) && store.file == old(store.file))
  {
    var validation := ValidateRepo(h, roots, repoPath, displayName, validatedAt);
    if validation.Failure? {
      return Failure(PathFault(validation.error));
    }
    var state := ReconcileVerdict(store, validation.value, activeAt);
    if state.Failure? {
      return Failure(state.error);
    }
    return Success(Verdict(validation.value, state.value));
  }

  /** `api.restoreRepo(repoPath)`: the state is read first; the argument, or
      else the active repository, is revalidated without a display name;
      with neither there is nothing to validate. */
  method RestoreRepo(store: Store, h: Host, roots: seq<Path>, repoPath: Option<string>,
                     validatedAt: string, activeAt: string)
    returns (r: Result<BridgeReply, Fault>)
    modifies store
    ensures !store.dirOk ==> r == Failure(IoFault) && store.file == old(store.file)
    ensures var target := RestoreTarget(repoPath, old(store.Contents()));
            store.dirOk && target.None? ==>
              r == Success(NothingToRestore("unhealthy", NO_REPO_MESSAGE, old(store.Contents())))
              && store.file == old(store.file)
    ensures var target := RestoreTarget(repoPath, old(store.Contents()));
            store.dirOk && target.Some? ==>
              var e := Evaluate(h, roots, target.value, None, validatedAt);
              && (e.Failure? ==> r == Failure(PathFault(e.error)) && store.file == old(store.file))
              && (e.Success? && store.writeOk ==>
                    r == Success(Verdict(e.value, AfterVerdict(old(store.Contents()), e.value, activeAt)))
                    && store.Contents() == r.value.state)
              && (e.Success? && !store.writeOk ==> r == Failure(IoFault) && store.file == old(store.file))
  {
    var state := store.ReadRepositoryState();
    if state.Failure? {
      return Failure(state.error);
    }
    var targetPath := RestoreTarget(repoPath, state.value);
    if targetPath.None? {
      return Success(NothingToRestore("unhealthy", NO_REPO_MESSAGE, state.value));
    }
    var validation := ValidateRepo(h, roots, targetPath.value, None, validatedAt);
    if validation.Failure? {
      return Failure(PathFault(validation.error));
    }
    var nextState := ReconcileVerdict(store, validation.value, activeAt);
    if nextState.Failure? {
      return Failure(nextState.error);
    }
    return Success(Verdict(validation.value, nextState.value));
  }

  /** `api.removeRepo(repoPath)`: `removeRepo` and its new state. */
  method RemoveRepo(store: Store, h: Host, roots: seq<Path>, repoPath: string) returns (r: Result<RepositoryState, Fault>)
    modifies store
    ensures var a := Authorize(h, roots, repoPath);
            && (a.Failure? ==> r == Failure(PathFault(a.error)) && store.file == old(store.file))
            && (a.Success? && store.dirOk && store.writeOk ==>
                  r == Success(Removed(old(store.Contents()), PathString(a.value))) && store.Contents() == r.value)
            && (a.Success? && !(store.dirOk && store.writeOk) ==> r == Failure(IoFault) && store.file == old(store.file))
  {
    r := store.RemoveRepo(h, roots, repoPath);
  }
}
