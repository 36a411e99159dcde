/** The projection of the persisted state into the list of repositories the
    interface shows: `toBmadRepository` and `toRepositoryList`. */
module RepositoryStore {
  import opened Wrappers
  import opened Text
  import opened Paths
  import opened StateStore

  /** `BmadRepository`. */
  datatype BmadRepository = BmadRepository(id: string, name: string, path: string, artifacts: seq<string>,
                                           validatedAt: string, lastActiveAt: string)

  /** The two separators of the regular expression `/[/\\]/`. */
  predicate IsNameSeparator(c: char) {
    c == '/' || c == '\\'
  }

  /** Splitting on either separator is splitting on `/` once every `\`
      has become `/`. */
  function UnifySeparators(s: string): (r: string)
    ensures |r| == |s|
    ensures forall i :: 0 <= i < |s| ==> r[i] == (if IsNameSeparator(s[i]) then '/' else s[i])
  {
    if s == [] then [] else [if IsNameSeparator(s[0]) then '/' else s[0]] + UnifySeparators(s[1..])
  }

  /** `.filter(Boolean)` on strings. */
  function NonEmpty(parts: seq<string>): (r: seq<string>)
    ensures forall k :: 0 <= k < |r| ==> r[k] != "" && r[k] in parts
  {
    if parts == [] then []
    else (if parts[0] == "" then [] else [parts[0]]) + NonEmpty(parts[1..])
  }

  /** `repoPath.split(/[/\\]/).filter(Boolean)`. */
  function NameSegments(repoPath: string): seq<string> {
    NonEmpty(Split(UnifySeparators(repoPath), '/'))
  }

  /** The last segment, or the whole path when there is none. */
  function DerivedName(repoPath: string): string {
    var segments := NameSegments(repoPath);
    if segments == [] then repoPath else segments[|segments| - 1]
  }

  /** `toBmadRepository`: the trimmed display name when it is not blank,
      otherwise the derived name. */
  function ToBmadRepository(record: Record): BmadRepository {
    // `Trim(v)` is empty exactly when `AllSpace(v)`
    var name := if record.displayName.Some? && !AllSpace(record.displayName.value)
                then Trim(record.displayName.value) else DerivedName(record.repoPath);
    BmadRepository(record.repoPath, name, record.repoPath, record.artifacts, record.validatedAt, record.lastActiveAt)
  }

  function PathsOf(list: seq<BmadRepository>): (r: seq<string>)
    ensures |r| == |list| && forall i :: 0 <= i < |list| ==> r[i] == list[i].path
  {
    seq(|list|, i requires 0 <= i < |list| => list[i].path)
  }

  function RecordPaths(records: seq<Record>): (r: seq<string>)
    ensures |r| == |records| && forall i :: 0 <= i < |records| ==> r[i] == records[i].repoPath
  {
    seq(|records|, i requires 0 <= i < |records| => records[i].repoPath)
  }

  function Present(records: seq<Record>): (r: seq<BmadRepository>)
    ensures |r| == |records| && forall i :: 0 <= i < |records| ==> r[i] == ToBmadRepository(records[i])
  {
    seq(|records|, i requires 0 <= i < |records| => ToBmadRepository(records[i]))
  }

  /** The records `toRepositoryList` presents, in order: the active one, then
      each recent one whose path is not listed yet. */
  function Chosen(active: Option<Record>, recent: seq<Record>): seq<Record>
    decreases |recent|
  {
    if recent == [] then (if active.Some? then [active.value] else [])
    else
      var prev := Chosen(active, recent[..|recent| - 1]);
      var record := recent[|recent| - 1];
      if record.repoPath in RecordPaths(prev) then prev else prev + [record]
  }

  /** `toRepositoryList`: a loop that appends each recent record unless its
      path is already in the list. */
  method ToRepositoryList(state: RepositoryState) returns (list: seq<BmadRepository>)
    ensures list == Present(Chosen(state.active, state.recent))
  {
    list := [];
    if state.active.Some? {
      list := list + [ToBmadRepository(state.active.value)];
    }
    assert state.recent[..0] == [];
    for i := 0 to |state.recent|
      invariant list == Present(Chosen(state.active, state.recent[..i]))
    {
      var record := state.recent[i];
      ChosenStep(state.active, state.recent, i);
      PresentPaths(Chosen(state.active, state.recent[..i]));
      var alreadyAdded := record.repoPath in PathsOf(list);
      if !alreadyAdded {
        PresentAppend(Chosen(state.active, state.recent[..i]), record);
        list := list + [ToBmadRepository(record)];
      }
    }
    assert state.recent[..|state.recent|] == state.recent;
  }

  /** One more recent record is skipped when its path is listed already and
      appended otherwise. */
  lemma ChosenStep(active: Option<Record>, recent: seq<Record>, i: nat)
    requires i < |recent|
    ensures var prev := Chosen(active, recent[..i]);
            Chosen(active, recent[..i + 1])
              == if recent[i].repoPath in RecordPaths(prev) then prev else prev + [recent[i]]
  {
    assert recent[..i + 1][..i] == recent[..i];
  }

  lemma PresentPaths(records: seq<Record>)
    ensures PathsOf(Present(records)) == RecordPaths(records)
  {
  }

  lemma PresentAppend(records: seq<Record>, record: Record)
    ensures Present(records + [record]) == Present(records) + [ToBmadRepository(record)]
  {
    assert forall i :: 0 <= i < |records| ==> (records + [record])[i] == records[i];
  }

  // ---- what the list promises ----

  /** The active record, if any, comes first; every recent path appears;
      every entry is the active record or a recent one; no path appears
      twice; and the list is no longer than the two together. */
  lemma {:induction false} ChosenProperties(active: Option<Record>, recent: seq<Record>)
    ensures var c := Chosen(active, recent);
            && (active.Some? ==> |c| >= 1 && c[0] == active.value)
            && (active.None? ==> forall x :: x in c ==> x in recent)
            && (forall i :: 0 <= i < |recent| ==> recent[i].repoPath in RecordPaths(c))
            && (forall x :: x in c ==> Some(x) == active || x in recent)
            && UniquePaths(c)
            && |c| <= (if active.Some? then 1 else 0) + |recent|
    decreases |recent|
  {
    if recent != [] {
      var init := recent[..|recent| - 1];
      var record := recent[|recent| - 1];
      var prev := Chosen(active, init);
      ChosenProperties(active, init);
      assert forall x :: x in init ==> x in recent;
      forall i | 0 <= i < |recent| ensures recent[i].repoPath in RecordPaths(Chosen(active, recent)) {
        if i < |recent| - 1 {
          assert recent[i] == init[i];
          AppendKeepsPaths(prev, record);
        } else if record.repoPath !in RecordPaths(prev) {
          assert (prev + [record])[|prev|] == record;
        }
      }
      if record.repoPath !in RecordPaths(prev) {
        UniqueAfterDistinctTail(prev, record);
      }
    }
  }

  lemma AppendKeepsPaths(prev: seq<Record>, record: Record)
    ensures forall p :: p in RecordPaths(prev) ==> p in RecordPaths(prev + [record])
  {
    forall p | p in RecordPaths(prev) ensures p in RecordPaths(prev + [record]) {
      var k :| 0 <= k < |prev| && RecordPaths(prev)[k] == p;
      assert (prev + [record])[k] == prev[k];
    }
  }

  lemma UniqueAfterDistinctTail(prev: seq<Record>, record: Record)
    requires UniquePaths(prev) && record.repoPath !in RecordPaths(prev)
    ensures UniquePaths(prev + [record])
  {
    var s := prev + [record];
    forall i, j | 0 <= i < j < |s| ensures s[i].repoPath != s[j].repoPath {
      if j == |prev| {
        assert s[i].repoPath == RecordPaths(prev)[i];
      } else {
        assert s[i] == prev[i] && s[j] == prev[j];
      }
    }
  }

  /** Appending the same element to both sides keeps a subsequence. */
  lemma {:induction false} SubsequenceAppend<T>(a: seq<T>, b: seq<T>, x: T)
    requires IsSubsequence(a, b)
    ensures IsSubsequence(a + [x], b + [x])
    decreases |b|
  {
    if a == [] {
      assert a + [x] == [x];
      SubsequenceOfSingle(b, x);
    } else {
      assert (a + [x])[0] == a[0] && (a + [x])[1..] == a[1..] + [x];
      assert (b + [x])[0] == b[0] && (b + [x])[1..] == b[1..] + [x];
      if a[0] == b[0] && IsSubsequence(a[1..], b[1..]) {
        SubsequenceAppend(a[1..], b[1..], x);
      } else {
        SubsequenceAppend(a, b[1..], x);
      }
    }
  }

  lemma {:induction false} SubsequenceOfSingle<T>(b: seq<T>, x: T)
    ensures IsSubsequence([x], b + [x])
    decreases |b|
  {
    if b == [] {
      assert ([x])[1..] == [];
    } else {
      assert (b + [x])[1..] == b[1..] + [x];
      SubsequenceOfSingle(b[1..], x);
    }
  }

  /** Adding an element at the end of the larger side keeps a subsequence. */
  lemma {:induction false} SubsequenceExtend<T>(a: seq<T>, b: seq<T>, x: T)
    requires IsSubsequence(a, b)
    ensures IsSubsequence(a, b + [x])
    decreases |b|
  {
    if a != [] {
      assert (b + [x])[0] == b[0] && (b + [x])[1..] == b[1..] + [x];
      if a[0] == b[0] && IsSubsequence(a[1..], b[1..]) {
        SubsequenceExtend(a[1..], b[1..], x);
      } else {
        SubsequenceExtend(a, b[1..], x);
      }
    }
  }

  /** The recent records keep their order: after the active one, the list
      is a subsequence of `recent`. */
  lemma {:induction false} ChosenKeepsOrder(active: Option<Record>, recent: seq<Record>)
    ensures var c := Chosen(active, recent);
            var offset := if active.Some? then 1 else 0;
            |c| >= offset && IsSubsequence(c[offset..], recent)
    decreases |recent|
  {
    var offset := if active.Some? then 1 else 0;
    if recent != [] {
      var init := recent[..|recent| - 1];
      var record := recent[|recent| - 1];
      var prev := Chosen(active, init);
      ChosenKeepsOrder(active, init);
      assert init + [record] == recent;
      if record.repoPath in RecordPaths(prev) {
        SubsequenceExtend(prev[offset..], init, record);
      } else {
        assert (prev + [record])[offset..] == prev[offset..] + [record];
        SubsequenceAppend(prev[offset..], init, record);
      }
    }
  }

  /** The displayed name of a record the store wrote: the repository
      directory's own name (`/` for the file-system root), unless a
      non-blank display name was given. */
  lemma StoredRecordName(record: Record, p: Path)
    requires ValidPath(p) && record.repoPath == PathString(p)
    requires forall i :: 0 <= i < |p| ==> '\\' !in p[i]
    requires record.displayName.None? || AllSpace(record.displayName.value)
    ensures ToBmadRepository(record).name == (if p == [] then "/" else Basename(p))
  {
    PathNameSegments(p);
  }

  /** The name segments of a path's string form are its segments, when no
      segment contains `\`. */
  lemma PathNameSegments(p: Path)
    requires ValidPath(p)
    requires forall i :: 0 <= i < |p| ==> '\\' !in p[i]
    ensures NameSegments(PathString(p)) == p
  {
    var s := PathString(p);
    NoBackslashJoined(p);
    UnifyWithoutBackslash(s);
    SplitAppend("", Join(p, '/'), '/');
    assert s == "" + ['/'] + Join(p, '/');
    if p == [] {
      assert Split("", '/') == [""];
      assert NonEmpty(["", ""]) == [];
    } else {
      SplitJoin(p, '/');
      NonEmptyOfSegments(p);
      assert ([""] + p)[1..] == p;
    }
  }

  lemma {:induction false} NoBackslashJoined(p: Path)
    requires forall i :: 0 <= i < |p| ==> '\\' !in p[i]
    ensures '\\' !in PathString(p)
  {
    JoinAvoids(p, '/', '\\');
  }

  /** Joining pieces that avoid a character, with another character as
      separator, avoids it too. */
  lemma {:induction false} JoinAvoids(parts: seq<string>, sep: char, c: char)
    requires c != sep && forall i :: 0 <= i < |parts| ==> c !in parts[i]
    ensures c !in Join(parts, sep)
    decreases |parts|
  {
    if |parts| > 1 {
      JoinAvoids(parts[1..], sep, c);
    }
  }

  lemma UnifyWithoutBackslash(s: string)
    requires '\\' !in s
    ensures UnifySeparators(s) == s
  {
    var r := UnifySeparators(s);
    assert forall i :: 0 <= i < |s| ==> r[i] == s[i];
  }

  lemma {:induction false} NonEmptyOfSegments(p: Path)
    requires ValidPath(p)
    ensures NonEmpty(p) == p
    decreases |p|
  {
    if p != [] {
      NonEmptyOfSegments(p[1..]);
    }
  }

  /** The name after the last separator, `/` or `\` alike, is the derived
      name: so a directory whose own name contains `\` is shown by the
      part after it. */
  lemma NameAfterLastSeparator(init: string, sep: char, last: string)
    requires IsNameSeparator(sep)
    requires last != "" && forall i :: 0 <= i < |last| ==> !IsNameSeparator(last[i])
    ensures DerivedName(init + [sep] + last) == last
  {
    var s := init + [sep] + last;
    var u := UnifySeparators(init);
    UnifyWithoutSeparators(last);
    assert UnifySeparators(s) == u + ['/'] + last by {
      var r := UnifySeparators(s);
      var t := u + ['/'] + last;
      assert |r| == |t|;
      forall i | 0 <= i < |s| ensures r[i] == t[i] {
        if i < |init| {
          assert s[i] == init[i];
        } else if i > |init| {
          assert s[i] == last[i - |init| - 1];
        }
      }
    }
    SplitConcat(u, last, '/');
    assert '/' !in last by {
      forall i | 0 <= i < |last| ensures last[i] != '/' {
        assert !IsNameSeparator(last[i]);
      }
    }
    SplitNoSeparator(last, '/');
    NonEmptyConcat(Split(u, '/'), [last]);
    assert NonEmpty([last]) == [last] by {
      assert [last][1..] == [];
    }
  }

  lemma UnifyWithoutSeparators(s: string)
    requires forall i :: 0 <= i < |s| ==> !IsNameSeparator(s[i])
    ensures UnifySeparators(s) == s
  {
    var r := UnifySeparators(s);
    assert forall i :: 0 <= i < |s| ==> r[i] == s[i];
  }

  lemma {:induction false} NonEmptyConcat(a: seq<string>, b: seq<string>)
    ensures NonEmpty(a + b) == NonEmpty(a) + NonEmpty(b)
    decreases |a|
  {
    if a == [] {
      assert a + b == b;
    } else {
      assert (a + b)[0] == a[0] && (a + b)[1..] == a[1..] + b;
      NonEmptyConcat(a[1..], b);
    }
  }
}
