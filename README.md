# Repository trust boundary and health check

This project is a Dafny model of the part of BMADapp that decides which
local repositories the dashboard may open, and whether such a repository is
usable. It proves properties of that model:

- **The path guard.** A path typed by the user is trimmed and resolved
  against the working directory. The resolved path, and then its real path,
  must each lie inside one of the allowed roots. The allowed roots are the
  home directory, the working directory, the operator's allowlist, and the
  real paths of all of these.
- **The health check** (`validateRepo`).
  - It locates the module configuration `bmm/config.yaml`: first at the two
    preferred places, then by a breadth-first search below the repository.
    The search goes at most five levels deep and skips `.git`,
    `node_modules` and the build folders.
  - It reads the `output_folder:` declaration, substituting
    `{project-root}`.
  - The verdict is healthy or unhealthy. A healthy one lists the artifacts
    found; an unhealthy one lists what is missing.
- **The persisted state** `{active, recent}`. `persistActiveRepo`,
  `clearPersistedRepo` and `removeRepo` read, update and rewrite it. The
  pure list update `upsertRecent` keeps at most five recent repositories.
- **The dashboard's repository list** (`toRepositoryList`), built from that
  state.
- **The desktop preload bridge.**
  - The document guards `assertDocPath` and `assertRepoScoped`.
  - `readFileSafe` and `readStatus`.
  - `persistRepo`, `restoreRepo` and `removeRepo`.
- **The web routes** `persist`, `restore` and `remove`. The model covers how
  a request body becomes a path, which HTTP status answers which outcome,
  and when the state file is rewritten.
- **The dashboard's workflow tables.** A story's or an epic's status becomes
  one status per step; statuses map to labels and colours.

The same logic exists twice: once in `apps/ui/lib/server/repo-health.ts`
(web) and once in `apps/desktop/runtime/repo-health.js` (desktop). The two
files implement the same steps; their functions correspond as follows:

| Function | `repo-health.ts` | `repo-health.js` |
|---|---|---|
| `computeAllowedRoots` | 37-51 | 33-47 |
| `findBmmConfig` | 131-170 | 127-164 |
| `extractOutputFolder` | 172-189 | 166-180 |
| `validateRepo` | 231-319 | 222-307 |
| `removeRepo` | 346-357 | 332-343 |

The table below cites the TypeScript file.

How the model is organised:

- A path is a sequence of segments. `Paths.Resolve` models POSIX
  `path.resolve`: empty and `.` pieces are dropped, `..` climbs one level
  but never above the root.
- The filesystem is a value, `HostFs.Host`. It maps paths to files and
  directories and carries the answers of `realpath`, the working directory
  and the home directory.
- Time stamps are parameters supplied by the caller.
- The state file is the field of a `StateStore.Store` object. Its methods
  read and rewrite that field. Two flags on the object say whether creating
  the data directory and writing the file succeed.
- Every method that changes the store is proved equal to a reference
  function of the old state. The lemmas are proved about those functions.

## Model

| member | source | states |
|---|---|---|
| Paths.InsideCharacterization | apps/ui/lib/server/repo-health.ts:55-58 | on normalized absolute paths, `isPathInside(base, target)` holds exactly when `base` is a segment prefix of `target` and the first segment below it, if any, does not begin with `..` |
| Paths.InsideIsPrefix | apps/ui/lib/server/repo-health.ts:55-58 | a path inside a base always has the base as a prefix: no sibling or parent passes |
| Paths.InsideOwnDescendant | apps/ui/lib/server/repo-health.ts:55-58 | a base contains itself and every descendant whose first segment below it does not begin with `..` |
| Paths.DotDotNamedChildRefused | apps/ui/lib/server/repo-health.ts:55-58 | a child whose name merely begins with `..` (such as `..cache`) is refused although it lies below the base, because the test looks at the text of the relative path |
| Paths.ResolvePathString | apps/ui/lib/server/repo-health.ts:60-72 | resolving the text of a normalized absolute path gives that path back, whatever the working directory |
| Paths.WalkWithoutParent | apps/desktop/preload.js:56-59 | pieces with no `..` among them resolve to the directory extended by the non-empty, non-`.` pieces, so they stay below it |
| Paths.ResolveJoined | apps/desktop/preload.js:58-59 | resolving `path.join(dir, rel)` for a relative `rel` is walking `rel`'s pieces from the resolved `dir` |
| Paths.RelativeToDescendant | apps/ui/lib/server/repo-health.ts:264-265 | `path.relative` from a directory to a descendant is the remaining segments joined by `/` |
| Paths.RelativeOrDotSelf | apps/ui/lib/server/repo-health.ts:277 | the output folder equal to the repository is reported as `.` |
| PathGuard.NormalizeRepoPath | apps/ui/lib/server/repo-health.ts:60-72 | fails exactly on blank input, with 400 `INVALID_REPO_PATH`; otherwise yields a normalized absolute path, and text that already spells a normalized path yields that path |
| PathGuard.AssertAllowedRepoPath | apps/ui/lib/server/repo-health.ts:82-87 | passes exactly when some allowed root contains the path; otherwise refuses with 403 `FORBIDDEN_REPO_PATH` |
| PathGuard.AllowedCharacterization | apps/ui/lib/server/repo-health.ts:82-87 | on normalized paths, allowed means: some root is a segment prefix and the first segment below it does not begin with `..` |
| PathGuard.RootsAreAllowed | apps/ui/lib/server/repo-health.ts:82-87 | each root, and each ordinary descendant of one, is allowed |
| PathGuard.ComputeAllowedRoots | apps/ui/lib/server/repo-health.ts:37-51 | the roots are duplicate-free and hold exactly the configured roots plus the real paths of those that resolve, configured roots first |
| PathGuard.AllowedRoots.constructor | apps/ui/lib/server/repo-health.ts:29-53 | the configured roots (home directory, working directory, allowlist) are fixed when the module loads, and `ALLOWED_ROOTS` starts as their root set |
| PathGuard.AllowedRoots.Refresh | apps/ui/lib/server/repo-health.ts:360-362 | `refreshAllowedRoots` replaces the roots by the root set of the roots configured at load time, with real paths resolved on the current host |
| ConfigLocator.FindConfigInDir | apps/ui/lib/server/repo-health.ts:122-129 | `dir/bmm/config.yaml` when it exists; otherwise `dir/config.yaml` exactly when `dir` is named `bmm` in any letter case and that file exists; anything returned exists |
| ConfigLocator.LocatePreferred | apps/ui/lib/server/repo-health.ts:133-142 | `.bmad/bmm/config.yaml` wins when it exists, then `bmm/config.yaml` |
| ConfigLocator.SearchQueueCorrect | apps/ui/lib/server/repo-health.ts:145-167 | from a well-formed, depth-ordered queue covering every reachable configuration, the search finds nothing exactly when no reachable directory holds a configuration, and otherwise finds one in a reachable directory of least depth |
| ConfigLocator.LocateSearch | apps/ui/lib/server/repo-health.ts:131-170 | without the preferred files, `findBmmConfig` yields `null` exactly when no directory reachable within five levels (avoiding ignored names) holds a configuration, and otherwise a configuration of a shallowest such directory |
| ConfigLocator.LocateBelowRoot | apps/ui/lib/server/repo-health.ts:131-170 | a located configuration exists and lies below the repository root |
| ConfigLocator.SearchQueueExists | apps/ui/lib/server/repo-health.ts:147-167 | whatever the queue search returns is an existing file |
| ConfigLocator.ReachableAvoidsIgnored | apps/ui/lib/server/repo-health.ts:161-165 | every directory on the way from the root to a searched directory exists and has no ignored name |
| ConfigLocator.ChildrenSound | apps/ui/lib/server/repo-health.ts:161-165 | every enqueued child is a listed directory entry of the current directory, not ignored |
| ConfigLocator.ChildrenComplete | apps/ui/lib/server/repo-health.ts:161-165 | every listed, non-ignored directory entry is enqueued |
| ConfigLocator.ExpandLowersPotential | apps/ui/lib/server/repo-health.ts:147-167 | the search loop terminates: each step lowers a bound on the work left, because depth is capped |
| ConfigLocator.EnqueueChildren | apps/ui/lib/server/repo-health.ts:154-166 | the loop over `readdirSync` appends exactly the admitted children, at depth plus one, in listing order |
| ConfigLocator.SearchBreadthFirst | apps/ui/lib/server/repo-health.ts:145-169 | the `while` loop over the queue computes the queue search, and every directory it examines is reachable |
| ConfigLocator.FindBmmConfig | apps/ui/lib/server/repo-health.ts:131-170 | `findBmmConfig` computes `Locate`, whose meaning `LocatePreferred` and `LocateSearch` state |
| ConfigFile.CaptureIsGreedyMatch | apps/ui/lib/server/repo-health.ts:177 | the capture of `\s*(.+)$` exists exactly when some split leaves only blanks before and a non-empty, terminator-free rest, and it starts at the last such split |
| ConfigFile.SeparatorBreaksCapture | apps/ui/lib/server/repo-health.ts:177 | a U+2028 after non-blank text defeats the match, because `.` does not match line terminators |
| ConfigFile.Unquote | apps/ui/lib/server/repo-health.ts:179-184 | the value is returned as is, or with one character cut from each end; it changes exactly when it starts and ends with the same kind of quote, so mismatched forms such as `'abc"` and `'abc` are kept |
| ConfigFile.UnquoteQuoted | apps/ui/lib/server/repo-health.ts:179-184 | a value in matching single or double quotes loses exactly those quotes |
| ConfigFile.UnquotePlain | apps/ui/lib/server/repo-health.ts:179-184 | a value not starting with a quote is kept |
| ConfigFile.FirstSomeIsFirstMatch | apps/ui/lib/server/repo-health.ts:174-188 | the scan yields nothing exactly when no line yields a value, and otherwise the value of the first line that does |
| ConfigFile.ExtractIsFirstMatch | apps/ui/lib/server/repo-health.ts:172-189 | `extractOutputFolder` yields the value of the first declaring line, and `undefined` exactly when no line declares one |
| ConfigFile.KeyLine | apps/ui/lib/server/repo-health.ts:175-186 | a line whose trimmed text starts with `output_folder:` yields the trimmed, unquoted capture of the rest, if any |
| ConfigFile.DeclarationLine | apps/ui/lib/server/repo-health.ts:175-186 | the line `output_folder: v` yields `v` unquoted |
| ConfigFile.SingleDeclaration | apps/ui/lib/server/repo-health.ts:172-189 | a configuration of the single line `output_folder: v` declares `v` unquoted |
| ConfigFile.ExtractProjectRootDevDocs | apps/ui/lib/server/repo-health.ts:172-189 | `output_folder: '{project-root}/devDocs'` declares `{project-root}/devDocs` |
| ConfigFile.OutputLocation | apps/ui/lib/server/repo-health.ts:272-275 | the output folder's location is a normalized absolute path |
| ConfigFile.TemplatedPlaceholder | apps/ui/lib/server/repo-health.ts:272 | `{project-root}` at the front is replaced by the repository's path, and the rest is kept when it holds no other placeholder |
| ConfigFile.TemplatedOccurrence | apps/ui/lib/server/repo-health.ts:272 | a placeholder anywhere in the value, in any letter case, is replaced by the repository's path when no earlier one starts before it; the text before it is kept |
| Text.ReplaceFirstOccurrence | apps/ui/lib/server/repo-health.ts:272 | a case-insensitive global replacement keeps the text before the leftmost occurrence, replaces that occurrence and continues after it |
| ConfigFile.TemplatedMixedCase | apps/ui/lib/server/repo-health.ts:272 | `docs/{Project-Root}/x` becomes `docs/` + the repository's path + `/x` |
| ConfigFile.PlaceholderSameAsRelative | apps/ui/lib/server/repo-health.ts:272-275 | `{project-root}/s` and the relative `s` name the same folder, walked from the repository |
| ConfigFile.PlaceholderSegment | apps/ui/lib/server/repo-health.ts:272-275 | `{project-root}/d`, for a plain segment `d`, is the child `d` of the repository |
| ConfigFile.DevDocsBelowRepository | apps/ui/lib/server/repo-health.ts:272-275 | `{project-root}/devDocs` is the repository's `devDocs` child |
| RepoHealth.AuthorizeRepoPath | apps/ui/lib/server/repo-health.ts:232-236 | the four guard steps, in order, compute `Authorize` |
| RepoHealth.AuthorizeRejects | apps/ui/lib/server/repo-health.ts:232-236 | blank input is refused with 400 before anything else; otherwise the guards fail, with 403, exactly when the resolved or the canonical path is outside every root |
| RepoHealth.AuthorizedPathInside | apps/ui/lib/server/repo-health.ts:232-236 | an authorized path, both as resolved and as canonical, descends from an allowed root; when `realpath` fails, the resolved path is the canonical one |
| RepoHealth.ValidateRepo | apps/ui/lib/server/repo-health.ts:231-319 | `validateRepo` computes `Evaluate`: the guards' error, or the verdict on the canonical path |
| RepoHealth.InspectRepo | apps/ui/lib/server/repo-health.ts:242-262 | a missing directory or no located configuration gives the required artifacts as missing; otherwise the configuration is inspected |
| RepoHealth.InspectConfigFile | apps/ui/lib/server/repo-health.ts:267-287 | a configuration that cannot be read puts the required artifacts into `missing`; otherwise its declaration is inspected |
| RepoHealth.DeclaredOutput | apps/ui/lib/server/repo-health.ts:271-283 | no non-blank declaration adds nothing; otherwise the output folder is recorded, and its relative path is found when it is a readable directory and missing when not |
| RepoHealth.InspectDeclaration | apps/ui/lib/server/repo-health.ts:264-318 | the configuration's relative path, the declared output folder and the optional artifacts are collected, and the verdict is unhealthy exactly when something is missing |
| RepoHealth.CollectOptional | apps/ui/lib/server/repo-health.ts:289-296 | the loop keeps exactly the optional artifacts that exist below the repository, in table order |
| RepoHealth.EvaluateAfterGuards | apps/ui/lib/server/repo-health.ts:231-319 | `validateRepo` throws exactly what the guards throw; otherwise its verdict is about the canonical path and echoes the display name and time stamp |
| RepoHealth.VerdictEchoesInputs | apps/ui/lib/server/repo-health.ts:298-318 | every verdict carries the canonical path, the display name and the time stamp it was given |
| RepoHealth.NoConfigMeansRequiredMissing | apps/ui/lib/server/repo-health.ts:242-262 | no directory, or an existing one with neither preferred configuration and none anywhere the search looks, gives exactly the required artifacts as missing, with no configuration path |
| RepoHealth.UnhealthyHasMissing | apps/ui/lib/server/repo-health.ts:298-309 | an unhealthy verdict always names something missing |
| RepoHealth.UnhealthyMissing | apps/ui/lib/server/repo-health.ts:242-309 | an unhealthy verdict reports either the required artifacts, or exactly the declared output folder, which is then not a readable directory; a located configuration is always reported |
| RepoHealth.UnreadableConfig | apps/ui/lib/server/repo-health.ts:284-287 | a located configuration that cannot be read gives the required artifacts as missing, still naming the configuration |
| RepoHealth.HealthyArtifacts | apps/ui/lib/server/repo-health.ts:264-318 | a healthy verdict names an existing, readable configuration below the repository; its artifacts are the configuration's relative path, then the output folder exactly when one is declared, which is then a readable directory |
| RepoHealth.HealthyOutputArtifacts | apps/ui/lib/server/repo-health.ts:264-296 | after the configuration is read, `artifacts` holds its relative path first, then the output folder exactly when one is declared, which is then readable |
| RepoHealth.HealthyExactly | apps/ui/lib/server/repo-health.ts:242-318 | healthy exactly when the directory exists, a configuration is located and read, and any non-blank declared output folder is a readable directory |
| RepoHealth.HiddenLayoutReportsPlainName | apps/ui/lib/server/repo-health.ts:284-287 | an unreadable `.bmad/bmm/config.yaml` is reported missing as `bmm/config.yaml`, while `configPath` is the hidden file |
| RepoHealth.PlainConfigRelative | apps/ui/lib/server/repo-health.ts:264-265 | the usual configuration is reported as `bmm/config.yaml` |
| RepoHealth.HiddenConfigRelative | apps/ui/lib/server/repo-health.ts:264-265 | the hidden layout's configuration is reported as `.bmad/bmm/config.yaml` |
| RepoHealth.PlainLayoutHealthy | apps/ui/lib/server/repo-health.ts:264-318 | the usual layout with no declared output folder is healthy, with `bmm/config.yaml` as its only artifact |
| RepoHealth.DevDocsDeclaration | apps/ui/lib/server/repo-health.ts:253-287 | whichever configuration the lookup settles on, the declaration `'{project-root}/devDocs'` in it makes the verdict depend only on whether `devDocs` is a readable directory: healthy with the configuration's relative path then `devDocs`, or unhealthy with `devDocs` missing |
| RepoHealth.DevDocsHiddenLayout | apps/ui/lib/server/repo-health.ts:253-287 | `.bmad/bmm/config.yaml` holding the declaration, with a readable `devDocs`, is healthy with artifacts `.bmad/bmm/config.yaml` and `devDocs` |
| RepoHealth.DevDocsPlainLayout | apps/ui/lib/server/repo-health.ts:253-287 | `bmm/config.yaml` alone holding the declaration, with a readable `devDocs`, is healthy with artifacts `bmm/config.yaml` and `devDocs` |
| RepoHealth.DevDocsOutput | apps/ui/lib/server/repo-health.ts:264-283 | for any configuration path, the output folder `{project-root}/devDocs` is the repository's `devDocs` child, found after the configuration's relative path or missing as `devDocs` |
| StateStore.WithoutPathExactly | apps/ui/lib/server/repo-health.ts:226 | the filter removes exactly the entries with that path, keeps the others in order, and changes nothing when none has it |
| StateStore.UpsertRecent | apps/ui/lib/server/repo-health.ts:225-229 | the record is first, and between one and five entries remain |
| StateStore.UpsertRecentShape | apps/ui/lib/server/repo-health.ts:225-229 | the record, then as many of the other entries as five leaves room for |
| StateStore.UpsertRecentProperties | apps/ui/lib/server/repo-health.ts:225-229 | the record is first; no other entry shares its path; at most five entries; the rest are the first old entries with other paths, in order; unique paths stay unique |
| StateStore.PersistedProperties | apps/ui/lib/server/repo-health.ts:321-332 | the record becomes `active` and first in `recent`, carrying the canonical path and the verdict's artifacts, time stamp and display name |
| StateStore.ClearedProperties | apps/ui/lib/server/repo-health.ts:334-340 | `active` is dropped, and exactly the entries with the failed path are removed, with the others kept in order |
| StateStore.RemovedProperties | apps/ui/lib/server/repo-health.ts:346-357 | exactly the entries with the canonical path are removed, and `active` is dropped exactly when it is that repository |
| StateStore.ReadBack | apps/ui/lib/server/repo-health.ts:191-212 | a missing or unreadable file reads as the empty state, and a written state reads back as itself |
| StateStore.OperationsKeepWellFormed | apps/ui/lib/server/repo-health.ts:321-357 | persisting bounds `recent` by five whatever it held; persisting, clearing and removing keep `recent` bounded and free of duplicate paths |
| StateStore.Store.ReadRepositoryState | apps/ui/lib/server/repo-health.ts:191-207 | the read fails when the data directory cannot be created, and otherwise yields what the file holds |
| StateStore.Store.WriteRepositoryState | apps/ui/lib/server/repo-health.ts:209-212 | the write stores the state so that it reads back, or fails and leaves the file alone |
| StateStore.Store.PersistActiveRepo | apps/ui/lib/server/repo-health.ts:321-332 | the stored state becomes the persisted state of the old one, or the call fails and the file is unchanged |
| StateStore.Store.ClearPersistedRepo | apps/ui/lib/server/repo-health.ts:334-340 | the stored state becomes the cleared state of the old one, or the call fails and the file is unchanged |
| StateStore.Store.RemoveRepo | apps/ui/lib/server/repo-health.ts:346-357 | both guards run before the state is read; then the stored state becomes the old one without the canonical path, or the call fails and the file is unchanged |
| RepositoryStore.ToRepositoryList | apps/ui/lib/repository-store.ts:26-41 | the loop builds the presentation of the chosen records: `active` first, then each `recent` entry whose path is not yet listed |
| RepositoryStore.ChosenStep | apps/ui/lib/repository-store.ts:33-38 | one loop step appends the entry exactly when its path is not listed yet |
| RepositoryStore.ChosenProperties | apps/ui/lib/repository-store.ts:26-41 | `active` comes first; every `recent` path is listed; nothing else is listed; no path twice |
| RepositoryStore.ChosenKeepsOrder | apps/ui/lib/repository-store.ts:26-41 | after `active`, the list follows the order of `recent` |
| RepositoryStore.NameAfterLastSeparator | apps/ui/lib/repository-store.ts:13-14 | the derived name is the text after the last `/` or `\` |
| RepositoryStore.PathNameSegments | apps/ui/lib/repository-store.ts:13 | splitting a stored canonical path on separators and dropping empty pieces gives back its segments |
| RepositoryStore.StoredRecordName | apps/ui/lib/repository-store.ts:12-24 | a stored record with no display name, or a blank one, is named after the last segment of its path, or `/` for the root |
| Reconcile.ReconcileVerdict | apps/desktop/preload.js:81-87 | an unhealthy verdict clears its path from the stored state and a healthy one is persisted; a failed write leaves the file alone |
| Reconcile.HealthyBecomesActive | apps/ui/lib/server/repo-health.ts:321-332 | a healthy verdict makes its repository active and first in `recent`, with its display name; no other entry keeps that path; at most five entries remain |
| Reconcile.UnhealthyIsCleared | apps/ui/lib/server/repo-health.ts:334-340 | an unhealthy verdict leaves no active repository and removes exactly the entries with its canonical path, keeping the others in order |
| Reconcile.RestoreTarget | apps/desktop/preload.js:91-93 | a non-blank argument wins; otherwise the active repository's path when it is non-empty; otherwise nothing to restore |
| Reconcile.RestoreDropsDisplayName | apps/desktop/preload.js:95-101 | restoring validates without a display name, so a restored repository is stored with none |
| PreloadBridge.AssertRepoScoped | apps/desktop/preload.js:35-45 | passes exactly when the resolved target lies inside the resolved repository by the allowlist's test; otherwise refuses with 403 |
| PreloadBridge.AssertDocPath | apps/desktop/preload.js:47-54 | passes exactly for a non-empty path without `..` that starts with `devDocs`; empty or `..` gives 400, and a wrong prefix gives 403 |
| PreloadBridge.DocPathStaysInRepo | apps/desktop/preload.js:47-59 | a document path accepted by `assertDocPath` resolves strictly below the repository, into a child whose name starts with `devDocs`, so `assertRepoScoped` always passes it |
| PreloadBridge.GuardsRunFirst | apps/desktop/preload.js:56-60 | when a guard refuses, `readFileSafe` answers with that guard's error whatever the filesystem holds |
| PreloadBridge.ReadFileSafeReadsDocs | apps/desktop/preload.js:56-63 | a successful read returns the file's text from strictly below the repository, inside a `devDocs…` child; an accepted path fails only when the read fails |
| PreloadBridge.ReadStatusLocation | apps/desktop/preload.js:107-110 | `readStatus` reads exactly `devDocs/bmm-workflow-status.yaml` below the resolved repository, and succeeds exactly when that file can be read |
| PreloadBridge.PersistRepo | apps/desktop/preload.js:80-88 | a guard error is passed on with the file untouched; otherwise the verdict is returned with the cleared or persisted state, which is what is stored |
| PreloadBridge.RestoreRepo | apps/desktop/preload.js:89-102 | the state is read first; with no target the answer is "No repo to restore" and the file is untouched; otherwise the target is validated without a display name and cleared or persisted |
| PreloadBridge.RemoveRepo | apps/desktop/preload.js:103-106 | a guard error is passed on; otherwise the stored state is the old one without the canonical path |
| RepoRoutes.RequestedPath | apps/ui/app/api/repo/persist/route.ts:5-9 | the route goes on exactly for a non-empty string `repoPath`; an unparseable body counts as an empty path |
| RepoRoutes.PassedName | apps/ui/app/api/repo/persist/route.ts:12 | the display name is passed exactly when it is a string |
| RepoRoutes.Candidate | apps/ui/app/api/repo/restore/route.ts:5-6 | the candidate is a string `repoPath` that is not blank |
| RepoRoutes.PersistStatusCodes | apps/ui/app/api/repo/persist/route.ts:4-27 | 400 exactly for a missing, empty or blank path; 403 exactly outside the roots; 500 exactly when an authorized verdict cannot be stored; 200 or 422, for healthy or unhealthy, exactly when it is stored; only 200 and 422 rewrite the state |
| RepoRoutes.RestoreStatusCodes | apps/ui/app/api/repo/restore/route.ts:4-34 | an uncaught failure for a `null` body or an unusable data directory; 404 with the stored state exactly when there is no target; then 400, 403, 500, 200 and 422 as for `persist` |
| RepoRoutes.RemoveStatusCodes | apps/ui/app/api/repo/remove/route.ts:4-20 | 400, 403 and 500 as for `persist`, otherwise 200 with the written state, which lacks exactly the canonical path's entries and keeps any other active repository |
| RepoRoutes.RoutesWriteOnlyInsideRoots | apps/ui/app/api/repo/persist/route.ts:11-20 | `persist` and `restore` rewrite the state only with a verdict about a path that descends from an allowed root, and a healthy one becomes the active repository |
| RepoRoutes.PersistRoute | apps/ui/app/api/repo/persist/route.ts:4-27 | the handler answers as `Persist` does, and the store afterwards holds what `Persist` writes, or is untouched |
| RepoRoutes.RestoreRoute | apps/ui/app/api/repo/restore/route.ts:4-34 | the handler answers as `Restore` does, with the store matching it |
| RepoRoutes.RemoveRoute | apps/ui/app/api/repo/remove/route.ts:4-20 | the handler answers as `Remove` does, with the store matching it |
| WorkflowSteps.CompletedTasks | apps/v0/lib/bmad-data.ts:395 | the count of complete tasks is at most the number of tasks; it equals that number exactly when all are complete, and is zero exactly when none is |
| WorkflowSteps.Sixths | apps/v0/lib/bmad-data.ts:395-396 | `Math.floor(c / d * 6)`, taken exactly: the `q` with `q * d <= 6c < (q + 1) * d`; zero exactly under one sixth, six exactly when all are complete |
| WorkflowSteps.InProgressIndexBounds | apps/v0/lib/bmad-data.ts:393-398 | an in-progress story sits at steps 4 to 7, with 4 to 10 steps counted complete: 4 exactly when under a sixth of its tasks are complete (or it has none), 10 exactly when all are |
| WorkflowSteps.StoryWorkflowSteps | apps/v0/lib/bmad-data.ts:334-359 | one step per row of the story table, in order, each with its row's data |
| WorkflowSteps.DoneStorySteps | apps/v0/lib/bmad-data.ts:341-342 | a done story's optional steps are skipped and all others done |
| WorkflowSteps.ReviewStorySteps | apps/v0/lib/bmad-data.ts:349-355 | a story in review has every step done except the second-to-last, in review, and the last, not started |
| WorkflowSteps.InProgressStorySteps | apps/v0/lib/bmad-data.ts:343-348 | an in-progress story has the steps before the current one done, exactly the current one in progress, and the rest not started |
| WorkflowSteps.NothingStartedExactly | apps/v0/lib/bmad-data.ts:334-359 | no step has started exactly when the story is neither done, in progress nor in review |
| WorkflowSteps.EpicPostStorySteps | apps/v0/lib/bmad-data.ts:361-381 | one step per row of the epic table, in order, each with its row's data |
| WorkflowSteps.EpicStepsRules | apps/v0/lib/bmad-data.ts:361-381 | nothing starts until every story is done; with the retrospective completed, optional steps are skipped and the rest done; otherwise only the first step is in progress; an epic with no stories counts as all done |
| WorkflowSteps.StatusLabelTable | apps/v0/lib/bmad-data.ts:463-482 | each known status gets its label, and any other status is shown as itself |
| WorkflowSteps.StatusLabelsDistinct | apps/v0/lib/bmad-data.ts:463-482 | distinct known statuses get distinct labels, and no label is itself a known status |
| WorkflowSteps.StepColorsAgree | apps/v0/lib/bmad-data.ts:423-461 | a step status has the colour of the item status of the same name, except `skipped` |
| WorkflowSteps.StatusColorGroups | apps/v0/lib/bmad-data.ts:439-461 | the complete, active, review and blocked colours go exactly to their listed statuses; every other status gets the pending colour |

## Left out

- Windows path semantics: drive letters, `\` separators, case-insensitive
  comparison. Node's `path` module is modelled for POSIX only.
- Reading the operator's allowlist from `BMAD_REPO_ALLOWLIST`: splitting on
  `path.delimiter`, trimming and resolving. The allowlist is a parameter
  holding already-resolved paths.
- `normalizeRepoPath`'s "must be absolute" error: `path.resolve` always
  yields an absolute path on POSIX, so the model has no such branch.
- Paths are modelled as sequences of segments, not as the strings the source
  reports. Two reported strings differ from the model because of this:
- ConfigFile.OutputLocation: `path.normalize` keeps a trailing separator, and
  the model drops it. For `output_folder: devDocs/` the source reports the
  output folder as `/repo/devDocs/`; the model gives the same location as for
  `devDocs`.
- PreloadBridge.ReadFileSafe: the `path` it returns is modelled as the
  resolved absolute path. The source returns the `path.join(repoPath,
  relativePath)` string itself, which stays relative when `repoPath` is
  relative and keeps a trailing separator.
- Clocks: `new Date().toISOString()` becomes the `validatedAt` and
  `activeAt` parameters.
- JSON:
  - serialising and parsing the state file (the file is a `StoredFile`
    value);
  - checking the fields read from it: a parsed `active` is taken to be a
    record;
  - the shape of request bodies beyond the two fields the routes read.
- Concurrency between requests; partially written state files.
- Creating the data directory: `dirOk` says only whether it succeeds.
- `Dirent` details and symbolic links during the search: `readdirSync`
  entries are the directory entries the host lists. `fs.stat` in
  `readFileSafe` is left out, and with it the `updatedAt` time stamp.
- `extractOutputFolder` splits on `\n` where the source splits on `\r?\n`.
  Both give the same value, because every line is trimmed and that removes
  a trailing `\r`.
- Letter case is folded for ASCII letters only, in `output_folder:`, in the
  `{project-root}` pattern and in the `bmm` directory test.
- The `{project-root}` substitution does not give a `$` in the repository
  path the special meaning that `String.replace` gives it.
- `WorkflowSteps.Sixths`: `getStoryProgress` computes its step index in
  floating point; the model takes the exact floor of the fraction instead.
- The steps tables keep every field, but only `isOptional` affects a
  status. `Story` and `Epic` keep only the fields the derivation reads.
- Outside the preload bridge's repository functions:
  - the rest of the UI;
  - the client that calls the routes;
  - `apps/v0`'s own repository store;
  - the `chooseRepo` dialog and the IPC allowlist;
  - the fallback module installed when the preload bridge cannot load its
    runtime.
  The bridge's `repoHealth` and `readDoc` are `validateRepo` and
  `readFileSafe` unchanged, so they have no members of their own.
- JavaScript coercions of non-string arguments to the bridge, such as
  `trim` on a non-string. The bridge is modelled on strings.
- A route whose body is the JSON value `null` fails on the destructuring,
  outside any `try`. The model answers `Crash` for it. So does `restore`
  when the state cannot be read before its `try`.
- `assertRepoScoped` cannot fail after `assertDocPath` has passed
  (`PreloadBridge.DocPathStaysInRepo`). The model keeps the check as the
  source writes it.
