/** The persisted repository state `{active, recent}`: how the state file is
    read, the pure list update `upsertRecent`, and the read-modify-write
    operations `persistActiveRepo`, `clearPersistedRepo` and `removeRepo`. */
module StateStore {
  import opened Wrappers
  import opened Paths
  import opened PathGuard
  import opened HostFs
  import opened RepoHealth

  /** `RECENT_LIMIT`: how many repositories `recent` keeps. */
  const RECENT_LIMIT: nat := 5

  /** `PersistedRepoRecord`. */
  datatype Record = Record(repoPath: string, artifacts: seq<string>, validatedAt: string, lastActiveAt: string,
                           displayName: Option<string>)

  /** `RepositoryState`; `active` is `null` as `None`. */
  datatype RepositoryState = RepositoryState(active: Option<Record>, recent: seq<Record>)

  const EMPTY_STATE := RepositoryState(None, [])

  /** What the state file holds as far as `readRepositoryState` can tell:
      nothing, something that cannot be read or parsed, or a parsed object
      whose `active` may be missing and whose `recent` may not be an array. */
  datatype StoredFile = Absent | Corrupt | Parsed(active: Option<Record>, recent: Option<seq<Record>>)

  /** What the operations throw: a `RepoPathError` from the guards, or a
      failed filesystem call (creating the data directory, writing the
      state file, reading a document). */
  datatype Fault = PathFault(error: RepoPathError) | IoFault

  /** The state a read produces from the file. */
  function Interpret(f: StoredFile): RepositoryState {
    match f
    case Parsed(active, recent) => RepositoryState(active, recent.GetOr([]))
    case _ => EMPTY_STATE
  }

  /** The file `writeRepositoryState` leaves behind. */
  function Encode(s: RepositoryState): StoredFile {
    Parsed(s.active, Some(s.recent))
  }

  /** `toPersistedRecord`: `lastActiveAt` is the caller-supplied time. */
  function ToPersistedRecord(result: HealthResult, activeAt: string): Record
    requires result.Healthy?
  {
    Record(PathString(result.repoPath), result.artifacts, result.validatedAt, activeAt, result.displayName)
  }

  /** `recent.filter((entry) => entry.repoPath !== p)`. */
  function WithoutPath(recent: seq<Record>, p: string): (r: seq<Record>)
    ensures |r| <= |recent|
  {
    if recent == [] then []
    else (if recent[0].repoPath == p then [] else [recent[0]]) + WithoutPath(recent[1..], p)
  }

  /** `a` is `b` with some elements dropped, the rest in their order. */
  predicate IsSubsequence<T(==)>(a: seq<T>, b: seq<T>)
    decreases |b|
  {
    if a == [] then true
    else if b == [] then false
    else (a[0] == b[0] && IsSubsequence(a[1..], b[1..])) || IsSubsequence(a, b[1..])
  }

  /** No two entries share a repository path. */
  predicate UniquePaths(s: seq<Record>) {
    forall i, j :: 0 <= i < j < |s| ==> s[i].repoPath != s[j].repoPath
  }

  /** `upsertRecent`: the record in front of the other entries, cut to the limit. */
  function UpsertRecent(recent: seq<Record>, record: Record): (r: seq<Record>)
    ensures 1 <= |r| <= RECENT_LIMIT && r[0] == record
  {
    var next := [record] + WithoutPath(recent, record.repoPath);
    if |next| <= RECENT_LIMIT then next else next[..RECENT_LIMIT]
  }

  /** The state after `persistActiveRepo`. */
  function Persisted(s: RepositoryState, record: Record): RepositoryState {
    RepositoryState(Some(record), UpsertRecent(s.recent, record))
  }

  /** The state after `clearPersistedRepo(failed)`: an absent or empty path
      filters nothing. */
  function Cleared(s: RepositoryState, failed: Option<string>): RepositoryState {
    RepositoryState(None, if failed.Some? && failed.value != "" then WithoutPath(s.recent, failed.value) else s.recent)
  }

  /** The state after `removeRepo` once the canonical path is known. */
  function Removed(s: RepositoryState, canonical: string): RepositoryState {
    var active := if s.active.Some? && s.active.value.repoPath == canonical then None else s.active;
    RepositoryState(active, WithoutPath(s.recent, canonical))
  }

  /** What every operation keeps: `recent` is bounded and free of duplicate paths. */
  predicate WellFormedState(s: RepositoryState) {
    |s.recent| <= RECENT_LIMIT && UniquePaths(s.recent)
  }

  // ---- lemmas about the list operations ----

  lemma {:induction false} SubsequenceMembers<T>(a: seq<T>, b: seq<T>)
    requires IsSubsequence(a, b)
    ensures forall x :: x in a ==> x in b
    decreases |b|
  {
    if a != [] {
      if a[0] == b[0] && IsSubsequence(a[1..], b[1..]) {
        SubsequenceMembers(a[1..], b[1..]);
        assert forall x :: x in a ==> x == a[0] || x in a[1..];
      } else {
        SubsequenceMembers(a, b[1..]);
      }
    }
  }

  lemma {:induction false} SubsequenceOfPrefix<T>(a: seq<T>, b: seq<T>, n: nat)
    requires IsSubsequence(a, b) && n <= |a|
    ensures IsSubsequence(a[..n], b)
    decreases |b|
  {
    if n > 0 {
      if a[0] == b[0] && IsSubsequence(a[1..], b[1..]) {
        SubsequenceOfPrefix(a[1..], b[1..], n - 1);
        assert a[..n][1..] == a[1..][..n - 1];
      } else {
        SubsequenceOfPrefix(a, b[1..], n);
      }
    }
  }

  lemma {:induction false} SubsequenceKeepsUnique(a: seq<Record>, b: seq<Record>)
    requires IsSubsequence(a, b) && UniquePaths(b)
    ensures UniquePaths(a)
    decreases |b|
  {
    if a != [] {
      if a[0] == b[0] && IsSubsequence(a[1..], b[1..]) {
        SubsequenceKeepsUnique(a[1..], b[1..]);
        SubsequenceMembers(a[1..], b[1..]);
        forall j | 0 < j < |a| ensures a[0].repoPath != a[j].repoPath {
          assert a[j] == a[1..][j - 1];
          assert a[j] in a[1..];
          assert a[j] in b[1..];
          var k :| 0 <= k < |b[1..]| && b[1..][k] == a[j];
          assert b[k + 1] == a[j];
        }
      } else {
        SubsequenceKeepsUnique(a, b[1..]);
      }
    }
  }

  /** The filter removes exactly the entries with that path and keeps the
      order of the others; without such entries it changes nothing. */
  lemma {:induction false} WithoutPathExactly(recent: seq<Record>, p: string)
    ensures var r := WithoutPath(recent, p);
            && (forall x :: x in r <==> x in recent && x.repoPath != p)
            && IsSubsequence(r, recent)
            && ((forall i :: 0 <= i < |recent| ==> recent[i].repoPath != p) ==> r == recent)
    decreases |recent|
  {
    if recent != [] {
      var rest := WithoutPath(recent[1..], p);
      WithoutPathExactly(recent[1..], p);
      assert forall x :: x in recent <==> x == recent[0] || x in recent[1..];
      if recent[0].repoPath == p {
        assert WithoutPath(recent, p) == rest;
      } else {
        assert WithoutPath(recent, p) == [recent[0]] + rest;
        assert ([recent[0]] + rest)[1..] == rest;
      }
    }
  }

  /** The shape of `upsertRecent`: the record, then as many of the other
      entries as the limit leaves room for, in their order. */
  lemma UpsertRecentShape(recent: seq<Record>, record: Record)
    ensures var r := UpsertRecent(recent, record);
            var others := WithoutPath(recent, record.repoPath);
            && |r| == (if 1 + |others| <= RECENT_LIMIT then 1 + |others| else RECENT_LIMIT)
            && r == [record] + others[..|r| - 1]
  {
    var r := UpsertRecent(recent, record);
    var others := WithoutPath(recent, record.repoPath);
    var next := [record] + others;
    assert r == next[..|r|];
    assert next[..|r|] == [record] + others[..|r| - 1];
  }

  /** What `upsertRecent` promises: the record is first, no other entry
      shares its path, at most `RECENT_LIMIT` entries remain, and the others
      are the first of the old entries with a different path, in order. */
  lemma UpsertRecentProperties(recent: seq<Record>, record: Record)
    ensures var r := UpsertRecent(recent, record);
            var others := WithoutPath(recent, record.repoPath);
            && r[0] == record && |r| <= RECENT_LIMIT
            && |r| == (if 1 + |others| <= RECENT_LIMIT then 1 + |others| else RECENT_LIMIT)
            && r[1..] == others[..|r| - 1]
            && (forall i :: 1 <= i < |r| ==> r[i].repoPath != record.repoPath)
            && IsSubsequence(r[1..], recent)
            && (UniquePaths(recent) ==> UniquePaths(r))
  {
    var r := UpsertRecent(recent, record);
    var others := WithoutPath(recent, record.repoPath);
    UpsertRecentShape(recent, record);
    WithoutPathExactly(recent, record.repoPath);
    var kept := others[..|r| - 1];
    PrefixAvoidsPath(others, |r| - 1, record.repoPath);
    FrontAndRest(r, record, kept);
    SubsequenceOfPrefix(others, recent, |r| - 1);
    if UniquePaths(recent) {
      SubsequenceKeepsUnique(kept, recent);
      UniqueAfterDistinctHead(record, kept);
    }
  }

  lemma PrefixAvoidsPath(others: seq<Record>, n: nat, p: string)
    requires n <= |others| && forall x :: x in others ==> x.repoPath != p
    ensures forall i :: 0 <= i < n ==> others[..n][i].repoPath != p
  {
    forall i | 0 <= i < n ensures others[..n][i].repoPath != p {
      assert others[..n][i] == others[i] && others[i] in others;
    }
  }

  lemma FrontAndRest(r: seq<Record>, record: Record, kept: seq<Record>)
    requires r == [record] + kept
    requires forall i :: 0 <= i < |kept| ==> kept[i].repoPath != record.repoPath
    ensures r[0] == record && r[1..] == kept
    ensures forall i :: 1 <= i < |r| ==> r[i].repoPath != record.repoPath
  {
    forall i | 1 <= i < |r| ensures r[i].repoPath != record.repoPath {
      assert r[i] == kept[i - 1];
    }
  }

  /** A record in front of entries with other paths keeps the paths unique. */
  lemma UniqueAfterDistinctHead(record: Record, rest: seq<Record>)
    requires UniquePaths(rest)
    requires forall i :: 0 <= i < |rest| ==> rest[i].repoPath != record.repoPath
    ensures UniquePaths([record] + rest)
  {
    var s := [record] + rest;
    forall i, j | 0 <= i < j < |s| ensures s[i].repoPath != s[j].repoPath {
      assert s[j] == rest[j - 1];
      if i > 0 {
        assert s[i] == rest[i - 1];
      }
    }
  }

  /** After `persistActiveRepo` the record is `active` and `recent[0]`, and
      the record carries the canonical path and the verdict's data. */
  lemma PersistedProperties(s: RepositoryState, result: HealthResult, activeAt: string)
    requires result.Healthy?
    ensures var record := ToPersistedRecord(result, activeAt);
            var t := Persisted(s, record);
            && t.active == Some(record) && t.recent[0] == record
            && record.repoPath == PathString(result.repoPath) && record.artifacts == result.artifacts
            && record.validatedAt == result.validatedAt && record.displayName == result.displayName
            && record.lastActiveAt == activeAt
            && (forall i :: 1 <= i < |t.recent| ==> t.recent[i].repoPath != record.repoPath)
            && IsSubsequence(t.recent[1..], s.recent)
  {
    UpsertRecentProperties(s.recent, ToPersistedRecord(result, activeAt));
  }

  /** `clearPersistedRepo(p)` always drops `active` and removes exactly the
      entries with path `p`, keeping the others in order; an absent `p`
      removes nothing. */
  lemma ClearedProperties(s: RepositoryState, p: string)
    requires p != ""
    ensures var t := Cleared(s, Some(p));
            && t.active.None?
            && (forall x :: x in t.recent <==> x in s.recent && x.repoPath != p)
            && IsSubsequence(t.recent, s.recent)
            && ((forall i :: 0 <= i < |s.recent| ==> s.recent[i].repoPath != p) ==> t.recent == s.recent)
  {
    WithoutPathExactly(s.recent, p);
  }

  /** `removeRepo` removes exactly the entries with the canonical path and
      drops `active` only when it is that repository. */
  lemma RemovedProperties(s: RepositoryState, canonical: string)
    ensures var t := Removed(s, canonical);
            && (forall x :: x in t.recent <==> x in s.recent && x.repoPath != canonical)
            && IsSubsequence(t.recent, s.recent)
            && (t.active.None? <==> s.active.None? || s.active.value.repoPath == canonical)
            && (t.active.Some? ==> t.active == s.active)
  {
    WithoutPathExactly(s.recent, canonical);
  }

  /** A missing or unreadable file reads as the empty state, and a written
      state reads back as itself. */
  lemma ReadBack(s: RepositoryState)
    ensures Interpret(Absent) == EMPTY_STATE && Interpret(Corrupt) == EMPTY_STATE
    ensures Interpret(Encode(s)) == s
  {
  }

  /** Every operation keeps the state well formed; persisting bounds
      `recent` whatever it held before. */
  lemma OperationsKeepWellFormed(s: RepositoryState, record: Record, failed: Option<string>, canonical: string)
    ensures |Persisted(s, record).recent| <= RECENT_LIMIT
    ensures WellFormedState(s) ==> WellFormedState(Persisted(s, record))
    ensures WellFormedState(s) ==> WellFormedState(Cleared(s, failed))
    ensures WellFormedState(s) ==> WellFormedState(Removed(s, canonical))
    ensures WellFormedState(EMPTY_STATE)
  {
    UpsertRecentProperties(s.recent, record);
    if WellFormedState(s) {
      if failed.Some? && failed.value != "" {
        WithoutPathExactly(s.recent, failed.value);
        SubsequenceKeepsUnique(Cleared(s, failed).recent, s.recent);
      }
      WithoutPathExactly(s.recent, canonical);
      SubsequenceKeepsUnique(Removed(s, canonical).recent, s.recent);
    }
  }

  /** The state file in the application data directory. `dirOk` says whether
      `fs.mkdir(APP_DATA_ROOT, {recursive: true})` succeeds and `writeOk`
      whether writing the file does; either failing is thrown. */
  class Store {
    var file: StoredFile
    const dirOk: bool
    const writeOk: bool

    constructor (file: StoredFile, dirOk: bool, writeOk: bool)
      ensures this.file == file && this.dirOk == dirOk && this.writeOk == writeOk
    {
      this.file := file;
      this.dirOk := dirOk;
      this.writeOk := writeOk;
    }

    /** The state a read would produce now. */
    function Contents(): RepositoryState
      reads this
    {
      Interpret(file)
    }

    /** `readRepositoryState` (and `readPersistedRepo`). */
    method ReadRepositoryState() returns (r: Result<RepositoryState, Fault>)
      ensures dirOk ==> r == Success(Contents())
      ensures !dirOk ==> r == Failure(IoFault)
    {
      if !dirOk {
        return Failure(IoFault);
      }
      match file
      case Absent =>
        r := Success(EMPTY_STATE);
      case Corrupt =>
        r := Success(EMPTY_STATE);
      case Parsed(active, recent) =>
        r := Success(RepositoryState(active, if recent.Some? then recent.value else []));
    }

    /** `writeRepositoryState`: a failed write leaves the file as it was. */
    method WriteRepositoryState(s: RepositoryState) returns (r: Outcome<Fault>)
      modifies this
      ensures dirOk && writeOk ==> r.Pass? && file == Encode(s) && Contents() == s
      ensures !(dirOk && writeOk) ==> r == Fail(IoFault) && file == old(file)
    {
      if !dirOk || !writeOk {
        return Fail(IoFault);
      }
      file := Encode(s);
      ReadBack(s);
      return Pass;
    }

    /** `persistActiveRepo`. */
    method PersistActiveRepo(result: HealthResult, activeAt: string) returns (r: Result<RepositoryState, Fault>)
      requires result.Healthy?
      modifies this
      ensures dirOk && writeOk ==> r == Success(Persisted(old(Contents()), ToPersistedRecord(result, activeAt)))
      ensures !(dirOk && writeOk) ==> r == Failure(IoFault)
      ensures r.Success? ==> Contents() == r.value
      ensures r.Failure? ==> file == old(file)
    {
      var state := ReadRepositoryState();
      if state.Failure? {
        return Failure(state.error);
      }
      var record := ToPersistedRecord(result, activeAt);
      var nextState := RepositoryState(Some(record), UpsertRecent(state.value.recent, record));
      var written := WriteRepositoryState(nextState);
      if written.Fail? {
        return Failure(written.error);
      }
      return Success(nextState);
    }

    /** `clearPersistedRepo(failedRepoPath)`. */
    method ClearPersistedRepo(failed: Option<string>) returns (r: Result<RepositoryState, Fault>)
      modifies this
      ensures dirOk && writeOk ==> r == Success(Cleared(old(Contents()), failed))
      ensures !(dirOk && writeOk) ==> r == Failure(IoFault)
      ensures r.Success? ==> Contents() == r.value
      ensures r.Failure? ==> file == old(file)
    {
      var state := ReadRepositoryState();
      if state.Failure? {
        return Failure(state.error);
      }
      var filteredRecent := state.value.recent;
      if failed.Some? && failed.value != "" {
        filteredRecent := WithoutPath(state.value.recent, failed.value);
      }
      var nextState := RepositoryState(None, filteredRecent);
      var written := WriteRepositoryState(nextState);
      if written.Fail? {
        return Failure(written.error);
      }
      return Success(nextState);
    }

    /** `removeRepo`: both forms of the path are authorized before the
      state is read; then the canonical path leaves `recent`, and `active`
      when it is that repository. */
    method RemoveRepo(h: Host, roots: seq<Path>, raw: string) returns (r: Result<RepositoryState, Fault>)
      modifies this
      ensures Authorize(h, roots, raw).Failure? ==> r == Failure(PathFault(Authorize(h, roots, raw).error))
      ensures Authorize(h, roots, raw).Success? && dirOk && writeOk ==>
                r == Success(Removed(old(Contents()), PathString(Authorize(h, roots, raw).value)))
      ensures Authorize(h, roots, raw).Success? && !(dirOk && writeOk) ==> r == Failure(IoFault)
      ensures r.Success? ==> Contents() == r.value
      ensures r.Failure? ==> file == old(file)
    {
      var authorized := AuthorizeRepoPath(h, roots, raw);
      if authorized.Failure? {
        return Failure(PathFault(authorized.error));
      }
      var canonical := PathString(authorized.value);
      var state := ReadRepositoryState();
      if state.Failure? {
        return Failure(state.error);
      }
      var recent := WithoutPath(state.value.recent, canonical);
      var active := state.value.active;
      if active.Some? && active.value.repoPath == canonical {
        active := None;
      }
      var nextState := RepositoryState(active, recent);
      var written := WriteRepositoryState(nextState);
      if written.Fail? {
        return Failure(written.error);
      }
      return Success(nextState);
    }
  }
}
