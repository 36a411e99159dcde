/** The trust boundary: turning a caller's string into an absolute path
    and deciding whether it lies under one of the allowed roots. */
module PathGuard {
  import opened Wrappers
  import opened Text
  import opened Paths
  import opened HostFs

  datatype ErrorCode = InvalidRepoPath | ForbiddenRepoPath

  /** `RepoPathError`: a message, an HTTP-like status and a machine code. */
  datatype RepoPathError = RepoPathError(message: string, statusCode: int, code: ErrorCode)

  const RequiredError := RepoPathError("repoPath is required", 400, InvalidRepoPath)
  const OutsideRootsError := RepoPathError("repoPath is outside the allowed roots", 403, ForbiddenRepoPath)

  /** `normalizeRepoPath`: trims, refuses an empty result, resolves against
      the working directory. (Resolution always yields an absolute path on
      POSIX, so its "must be absolute" error cannot arise.) */
  function NormalizeRepoPath(cwd: Path, raw: string): (r: Result<Path, RepoPathError>)
    ensures r.Failure? <==> AllSpace(raw)
    ensures r.Failure? ==> r.error == RequiredError
    ensures r.Success? && ValidPath(cwd) ==> ValidPath(r.value)
    ensures forall p :: ValidPath(p) && Trim(raw) == PathString(p) ==> r == Success(p)
  {
    var trimmed := Trim(raw);
    if trimmed == "" then Failure(RequiredError)
    else
      assert forall p :: ValidPath(p) && trimmed == PathString(p) ==> Resolve(cwd, trimmed) == p by {
        forall p | ValidPath(p) && trimmed == PathString(p) ensures Resolve(cwd, trimmed) == p {
          ResolvePathString(cwd, p);
        }
      }
      Success(Resolve(cwd, trimmed))
  }

  /** `resolveCanonicalPath`: the real path, or the path itself when
      `realpath` fails. */
  function ResolveCanonicalPath(h: Host, p: Path): (r: Path)
    ensures Realpath(h, p).Some? ==> r == Realpath(h, p).value
    ensures Realpath(h, p).None? ==> r == p
  {
    match Realpath(h, p)
    case Some(canonical) => canonical
    case None => p
  }

  /** Some allowed root contains the path. */
  predicate IsAllowed(roots: seq<Path>, p: Path) {
    exists i :: 0 <= i < |roots| && IsPathInside(roots[i], p)
  }

  /** `assertAllowedRepoPath`. */
  function AssertAllowedRepoPath(roots: seq<Path>, p: Path): (r: Outcome<RepoPathError>)
    ensures r.Pass? <==> IsAllowed(roots, p)
    ensures r.Fail? ==> r.error == OutsideRootsError && r.error.statusCode == 403
  {
    if IsAllowed(roots, p) then Pass else Fail(OutsideRootsError)
  }

  predicate AllValid(roots: seq<Path>) {
    forall i :: 0 <= i < |roots| ==> ValidPath(roots[i])
  }

  /** On normalized paths the allowlist test means: some root is a prefix
      of the path and the first segment below it does not begin with `..`. */
  lemma AllowedCharacterization(roots: seq<Path>, p: Path)
    requires AllValid(roots) && ValidPath(p)
    ensures IsAllowed(roots, p) <==> exists i :: 0 <= i < |roots| && InsideBySegments(roots[i], p)
    ensures IsAllowed(roots, p) ==> exists i :: 0 <= i < |roots| && IsPrefix(roots[i], p)
  {
    forall i | 0 <= i < |roots|
      ensures IsPathInside(roots[i], p) <==> InsideBySegments(roots[i], p)
    {
      InsideCharacterization(roots[i], p);
    }
  }

  /** A root itself, and anything below it whose first segment does not
      begin with `..`, is allowed. */
  lemma RootsAreAllowed(roots: seq<Path>, i: nat, rest: seq<string>)
    requires AllValid(roots) && ValidPath(rest) && i < |roots|
    requires rest == [] || !StartsWith(rest[0], "..")
    ensures IsAllowed(roots, roots[i] + rest)
  {
    InsideOwnDescendant(roots[i], rest);
  }

  /** `[os.homedir(), process.cwd()]` followed by the operator's list. */
  function ConfiguredRoots(h: Host, envRoots: seq<Path>): seq<Path> {
    [h.home, h.cwd] + envRoots
  }

  predicate NoDuplicates<T(==)>(s: seq<T>) {
    forall i, j :: 0 <= i < j < |s| ==> s[i] != s[j]
  }

  /** What `computeAllowedRoots` produces: no duplicates, exactly the
      configured roots and their resolvable real paths, configured roots first. */
  ghost predicate IsRootSet(h: Host, configured: seq<Path>, roots: seq<Path>) {
    && NoDuplicates(roots)
    && (forall p :: p in roots <==> p in configured || exists q :: q in configured && Realpath(h, q) == Some(p))
    && (forall i, j :: 0 <= i < j < |roots| && roots[j] in configured ==> roots[i] in configured)
  }

  /** `computeAllowedRoots`: a set seeded with the configured roots, then
      each root's real path added where `realpath` succeeds. */
  method ComputeAllowedRoots(h: Host, configured: seq<Path>) returns (roots: seq<Path>)
    ensures IsRootSet(h, configured, roots)
  {
    roots := [];
    for i := 0 to |configured|
      invariant NoDuplicates(roots)
      invariant forall p :: p in roots <==> p in configured[..i]
    {
      if configured[i] !in roots {
        roots := roots + [configured[i]];
      }
      assert configured[..i + 1] == configured[..i] + [configured[i]];
    }
    assert configured[..|configured|] == configured;
    for i := 0 to |configured|
      invariant NoDuplicates(roots)
      invariant forall p :: p in roots <==> p in configured || exists q :: q in configured[..i] && Realpath(h, q) == Some(p)
      invariant forall a, b :: 0 <= a < b < |roots| && roots[b] in configured ==> roots[a] in configured
    {
      assert configured[..i + 1] == configured[..i] + [configured[i]];
      match Realpath(h, configured[i])
      case Some(target) =>
        if target !in roots {
          roots := roots + [target];
        }
      case None =>
    }
  }

  /** The process-wide `ALLOWED_ROOTS` binding and `refreshAllowedRoots`.
      The configured roots (home directory, working directory and the
      allow-list variable) are read once, when the module is loaded; a
      refresh only re-resolves the real paths of those same roots. */
  class AllowedRoots {
    const configured: seq<Path>
    var roots: seq<Path>

    constructor (h: Host, envRoots: seq<Path>)
      ensures configured == ConfiguredRoots(h, envRoots)
      ensures IsRootSet(h, configured, roots)
    {
      configured := ConfiguredRoots(h, envRoots);
      var computed := ComputeAllowedRoots(h, ConfiguredRoots(h, envRoots));
      roots := computed;
    }

    /** Recomputes the roots from the roots configured at load time,
        resolving their real paths on the current host. */
    method Refresh(h: Host)
      modifies this
      ensures IsRootSet(h, configured, roots)
    {
      roots := ComputeAllowedRoots(h, configured);
    }
  }
}
