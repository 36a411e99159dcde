/** What the desktop bridge and the web routes both do with a verdict: an
    unhealthy repository is cleared from the state, a healthy one is
    persisted as active; and how `restore` picks the repository it
    revalidates. */
module Reconcile {
  import opened Wrappers
  import opened Text
  import opened Paths
  import opened HostFs
  import opened PathGuard
  import opened RepoHealth
  import opened StateStore

  /** The state after the verdict `v`: `clearPersistedRepo(v.repoPath)` when
      it is unhealthy, `persistActiveRepo(v)` when it is healthy. */
  function AfterVerdict(s: RepositoryState, v: HealthResult, activeAt: string): RepositoryState {
    if v.Unhealthy? then Cleared(s, Some(PathString(v.repoPath)))
    else Persisted(s, ToPersistedRecord(v, activeAt))
  }

  /** The clear-or-persist step of `persistRepo`, `restoreRepo` and the
      `persist` and `restore` routes. */
  method ReconcileVerdict(store: Store, v: HealthResult, activeAt: string) returns (r: Result<RepositoryState, Fault>)
    modifies store
    ensures store.dirOk && store.writeOk ==>
              r == Success(AfterVerdict(old(store.Contents()), v, activeAt)) && store.Contents() == r.value
    ensures !(store.dirOk && store.writeOk) ==> r == Failure(IoFault) && store.file == old(store.file)
  {
    if v.Unhealthy? {
      r := store.ClearPersistedRepo(Some(PathString(v.repoPath)));
    } else {
      r := store.PersistActiveRepo(v, activeAt);
    }
  }

  /** A healthy verdict makes its repository active and first in `recent`,
      with the verdict's display name, and no other entry keeps its path. */
  lemma HealthyBecomesActive(s: RepositoryState, v: HealthResult, activeAt: string)
    requires v.Healthy?
    ensures var t := AfterVerdict(s, v, activeAt);
            && t.active.Some? && t.active.value.repoPath == PathString(v.repoPath)
            && t.active.value.displayName == v.displayName
            && |t.recent| >= 1 && t.recent[0] == t.active.value
            && (forall i :: 1 <= i < |t.recent| ==> t.recent[i].repoPath != PathString(v.repoPath))
            && |t.recent| <= RECENT_LIMIT
  {
    PersistedProperties(s, v, activeAt);
  }

  /** An unhealthy verdict drops `active` and every entry for the verdict's
      canonical path, and keeps every other entry in order. */
  lemma UnhealthyIsCleared(s: RepositoryState, v: HealthResult, activeAt: string)
    requires v.Unhealthy?
    ensures var t := AfterVerdict(s, v, activeAt);
            && t.active.None?
            && (forall x :: x in t.recent <==> x in s.recent && x.repoPath != PathString(v.repoPath))
            && IsSubsequence(t.recent, s.recent)
  {
    ClearedProperties(s, PathString(v.repoPath));
  }

  /** The message of the answer to a restore with nothing to restore. */
  const NO_REPO_MESSAGE := "No repo to restore"

  /** `repoPath && repoPath.trim().length > 0 ? repoPath : state.active?.repoPath`,
      with an empty result counting as no target. */
  function RestoreTarget(candidate: Option<string>, s: RepositoryState): (r: Option<string>)
    ensures r.Some? ==> r.value != ""
    ensures candidate.Some? && !AllSpace(candidate.value) ==> r == candidate
    ensures (candidate.None? || AllSpace(candidate.value)) ==>
              (r.Some? <==> s.active.Some? && s.active.value.repoPath != "")
    ensures (candidate.None? || AllSpace(candidate.value)) && r.Some? ==> r.value == s.active.value.repoPath
  {
    if candidate.Some? && !AllSpace(candidate.value) then candidate
    else if s.active.Some? && s.active.value.repoPath != "" then Some(s.active.value.repoPath)
    else None
  }

  /** Restoring passes no display name, so a re-persisted repository loses
      the one it had. */
  lemma RestoreDropsDisplayName(h: Host, roots: seq<Path>, target: string, s: RepositoryState,
                                validatedAt: string, activeAt: string)
    requires Evaluate(h, roots, target, None, validatedAt).Success?
    requires Evaluate(h, roots, target, None, validatedAt).value.Healthy?
    ensures var t := AfterVerdict(s, Evaluate(h, roots, target, None, validatedAt).value, activeAt);
            t.active.Some? && t.active.value.displayName.None? && t.recent[0].displayName.None?
  {
    EvaluateAfterGuards(h, roots, target, None, validatedAt);
    HealthyBecomesActive(s, Evaluate(h, roots, target, None, validatedAt).value, activeAt);
  }
}
