/** Reading the declared output folder out of the module configuration
    text, and turning it into a location below the repository. */
module ConfigFile {
  import opened Wrappers
  import opened Text
  import opened Paths

  const OUTPUT_KEY: string := "output_folder:"
  const PROJECT_ROOT_TOKEN: string := "{project-root}"

  predicate NoLineTerminator(s: string) {
    forall i :: 0 <= i < |s| ==> !IsLineTerminator(s[i])
  }

  /** What `\s*(.+)$` can capture after the key when `\s*` consumes the
      first `k` characters. */
  predicate CaptureAt(rest: string, k: int) {
    0 <= k < |rest| && AllSpace(rest[..k]) && NoLineTerminator(rest[k..])
  }

  /** The regular expression's backtracking search: `\s*` is greedy, so the
      longest whitespace run is tried first, then shorter ones. */
  function CaptureFrom(rest: string, k: nat): Option<string>
    requires k <= |rest|
    decreases k
  {
    if k < |rest| && NoLineTerminator(rest[k..]) then Some(rest[k..])
    else if k == 0 then None
    else CaptureFrom(rest, k - 1)
  }

  /** The capture group of `^\s*(.+)$` applied to the text after the key:
      the search starts from the longest leading whitespace run. */
  function Capture(rest: string): Option<string> {
    CaptureFrom(rest, |rest| - |TrimStart(rest)|)
  }

  lemma {:induction false} CaptureFromIsLastFit(rest: string, k: nat)
    requires k <= |rest| && AllSpace(rest[..k])
    ensures CaptureFrom(rest, k).Some? <==> exists j :: 0 <= j <= k && CaptureAt(rest, j)
    ensures CaptureFrom(rest, k).Some? ==>
              exists j :: 0 <= j <= k && CaptureAt(rest, j) && CaptureFrom(rest, k).value == rest[j..]
                       && forall j' :: j < j' <= k ==> !CaptureAt(rest, j')
    decreases k
  {
    if k < |rest| && NoLineTerminator(rest[k..]) {
      assert CaptureAt(rest, k);
    } else if k > 0 {
      assert rest[..k - 1] == rest[..k][..k - 1];
      CaptureFromIsLastFit(rest, k - 1);
    }
  }

  /** `Capture` agrees with the regular expression: it succeeds exactly
      when some split into whitespace and a non-empty, line-break-free
      rest exists, and it returns the rest of the split with the longest
      whitespace. */
  lemma CaptureIsGreedyMatch(rest: string)
    ensures Capture(rest).Some? <==> exists j :: CaptureAt(rest, j)
    ensures Capture(rest).Some? ==>
              exists j :: CaptureAt(rest, j) && Capture(rest).value == rest[j..]
                       && forall j' :: j < j' ==> !CaptureAt(rest, j')
  {
    var k := |rest| - |TrimStart(rest)|;
    forall j | CaptureAt(rest, j) ensures j <= k {
    }
    CaptureFromIsLastFit(rest, k);
  }

  /** `value.slice(1, -1)` when the value starts and ends with the same
      kind of quote (a lone quote character yields the empty string). */
  function Unquote(v: string): (r: string)
    ensures |r| <= |v|
    ensures r == v || (|v| >= 2 && r == v[1..|v| - 1]) || (|v| == 1 && r == "")
    ensures r != v <==> |v| >= 1 && ((v[0] == '\'' && v[|v| - 1] == '\'') || (v[0] == '"' && v[|v| - 1] == '"'))
  {
    // a one-character `startsWith` / `endsWith` tests the first / last character
    var quoted := |v| >= 1 && ((v[0] == '\'' && v[|v| - 1] == '\'') || (v[0] == '"' && v[|v| - 1] == '"'));
    if !quoted then v
    else if |v| >= 2 then v[1..|v| - 1]
    else ""
  }

  /** What one line contributes: `None` for a blank line, a `#` comment, or
      a line that is not `output_folder:` (in any letter case) followed by
      a value. */
  function LineValue(line: string): Option<string> {
    var t := Trim(line);
    if t == "" || StartsWith(t, "#") then None
    else if |t| >= |OUTPUT_KEY| && EqualsIgnoreCase(t[..|OUTPUT_KEY|], OUTPUT_KEY) then
      match Capture(t[|OUTPUT_KEY|..])
      case Some(value) => Some(Unquote(Trim(value)))
      case None => None
    else None
  }

  /** What each line contributes, in order. */
  function LineValues(lines: seq<string>): (r: seq<Option<string>>)
    ensures |r| == |lines|
  {
    seq(|lines|, i requires 0 <= i < |lines| => LineValue(lines[i]))
  }

  /** The first value present, in order. */
  function FirstSome<T>(vs: seq<Option<T>>): Option<T> {
    if vs == [] then None
    else if vs[0].Some? then vs[0]
    else FirstSome(vs[1..])
  }

  /** `r` is the first value present in `vs`, and `None` exactly when no
      value is present. */
  ghost predicate FirstMatch<T>(vs: seq<Option<T>>, r: Option<T>) {
    && (r.None? <==> forall i :: 0 <= i < |vs| ==> vs[i].None?)
    && (r.Some? ==> exists i :: 0 <= i < |vs| && vs[i] == r && forall j :: 0 <= j < i ==> vs[j].None?)
  }

  lemma {:induction false} FirstSomeIsFirstMatch<T>(vs: seq<Option<T>>)
    ensures FirstMatch(vs, FirstSome(vs))
    decreases |vs|
  {
    if vs == [] {
    } else if vs[0].Some? {
      assert 0 <= 0 < |vs| && vs[0] == FirstSome(vs);
    } else {
      var tail := vs[1..];
      FirstSomeIsFirstMatch(tail);
      if FirstSome(tail).Some? {
        var i :| 0 <= i < |tail| && tail[i] == FirstSome(tail) && forall j :: 0 <= j < i ==> tail[j].None?;
        assert vs[i + 1] == tail[i];
        forall j | 0 <= j < i + 1 ensures vs[j].None? {
          if j > 0 {
            assert vs[j] == tail[j - 1];
          }
        }
      } else {
        forall i | 0 <= i < |vs| ensures vs[i].None? {
          if i > 0 {
            assert vs[i] == tail[i - 1];
          }
        }
      }
    }
  }

  /** `extractOutputFolder`: the lines are the pieces between `\n`
      characters (a `\r` before `\n` is whitespace that trimming removes),
      and the first of them with a value decides. */
  function ExtractOutputFolder(raw: string): Option<string> {
    FirstSome(LineValues(Split(raw, '\n')))
  }

  /** `extractOutputFolder` returns the value of the first line that has
      one, and nothing exactly when no line has one. */
  lemma ExtractIsFirstMatch(raw: string)
    ensures FirstMatch(LineValues(Split(raw, '\n')), ExtractOutputFolder(raw))
  {
    FirstSomeIsFirstMatch(LineValues(Split(raw, '\n')));
  }

  /** A value inside matching quotes loses exactly those quotes. */
  lemma UnquoteQuoted(inner: string, quote: char)
    requires quote == '\'' || quote == '"'
    ensures Unquote([quote] + inner + [quote]) == inner
  {
    var v := [quote] + inner + [quote];
    assert v[..1] == [quote] && v[|v| - 1..] == [quote];
    assert v[1..|v| - 1] == inner;
  }

  /** A value not starting with a quote is left alone. */
  lemma UnquotePlain(v: string)
    requires v == "" || (v[0] != '\'' && v[0] != '"')
    ensures Unquote(v) == v
  {
    if v != "" {
      assert v[..1] == [v[0]];
    }
  }

  /** On a trimmed line the capture is the text after the key with its
      leading whitespace removed. */
  lemma CaptureOfTrimmed(rest: string)
    requires rest != "" && !IsSpace(rest[|rest| - 1]) && NoLineTerminator(rest)
    ensures Capture(rest) == Some(TrimStart(rest))
  {
    var k := |rest| - |TrimStart(rest)|;
    assert TrimStart(rest) != "";
    assert rest[k..] == TrimStart(rest);
    assert CaptureAt(rest, k);
  }

  /** A line holding a line separator after the key (other than at its
      ends) is not a declaration: `.` does not match it. */
  lemma SeparatorBreaksCapture(a: string, b: string)
    requires !AllSpace(a)
    ensures Capture(a + "\U{2028}" + b).None?
  {
    var rest := a + "\U{2028}" + b;
    CaptureIsGreedyMatch(rest);
    forall j | 0 <= j < |rest| ensures !CaptureAt(rest, j) {
      NoCaptureAt(a, b, j);
    }
  }

  /** No split point works: one that leaves the separator in the capture
      fails, and one past it puts a non-space character of `a` into the
      whitespace. */
  lemma NoCaptureAt(a: string, b: string, j: nat)
    requires !AllSpace(a) && j < |a| + 1 + |b|
    ensures !CaptureAt(a + "\U{2028}" + b, j)
  {
    var rest := a + "\U{2028}" + b;
    if j <= |a| {
      assert rest[j..][|a| - j] == '\U{2028}';
    } else {
      var i :| 0 <= i < |a| && !IsSpace(a[i]);
      assert rest[..j][i] == a[i];
    }
  }

  /** The line `output_folder: <v>`, with `v` free of surrounding
      whitespace and line breaks, declares `Unquote(v)`. */
  lemma DeclarationLine(v: string)
    requires v != "" && !IsSpace(v[0]) && !IsSpace(v[|v| - 1]) && NoLineTerminator(v)
    ensures LineValue(OUTPUT_KEY + " " + v) == Some(Unquote(v))
  {
    var raw := OUTPUT_KEY + " " + v;
    var rest := " " + v;
    assert raw == OUTPUT_KEY + rest;
    assert !IsSpace(raw[0]) && raw[|raw| - 1] == v[|v| - 1];
    TrimOfTrimmed(raw);
    KeyLine(raw, rest);
    CaptureAfterSpace(v);
    TrimOfTrimmed(v);
  }

  /** The text after the key's separating space is captured whole. */
  lemma CaptureAfterSpace(v: string)
    requires v != "" && !IsSpace(v[0]) && !IsSpace(v[|v| - 1]) && NoLineTerminator(v)
    ensures Capture(" " + v) == Some(v)
  {
    var rest := " " + v;
    assert NoLineTerminator(rest) by {
      assert forall i :: 1 <= i < |rest| ==> rest[i] == v[i - 1];
    }
    CaptureOfTrimmed(rest);
    TrimStartSkipsOne(rest);
    assert rest[1..] == v;
  }

  /** A line that trims to the key followed by `rest` contributes what the
      capture of `rest` gives. */
  lemma KeyLine(line: string, rest: string)
    requires Trim(line) == OUTPUT_KEY + rest
    ensures LineValue(line) == match Capture(rest) case Some(value) => Some(Unquote(Trim(value))) case None => None
  {
    var t := Trim(line);
    var key := OUTPUT_KEY;
    assert t[..|key|] == key && t[|key|..] == rest;
    assert EqualsIgnoreCase(key, key);
    assert t[..1] == key[..1] == ['o'];
    assert !StartsWith(t, "#");
  }

  /** A configuration made of that single line declares `Unquote(v)`. */
  lemma SingleDeclaration(v: string)
    requires v != "" && !IsSpace(v[0]) && !IsSpace(v[|v| - 1]) && NoLineTerminator(v)
    ensures ExtractOutputFolder(OUTPUT_KEY + " " + v) == Some(Unquote(v))
  {
    var raw := OUTPUT_KEY + " " + v;
    assert '\n' !in raw by {
      assert forall i :: |OUTPUT_KEY| + 1 <= i < |raw| ==> raw[i] == v[i - |OUTPUT_KEY| - 1];
    }
    SplitNoSeparator(raw, '\n');
    DeclarationLine(v);
  }

  /** The folder the shipped module configuration declares, and the line
      declaring it: `output_folder: '{project-root}/devDocs'`. */
  const DEV_DOCS: string := "devDocs"
  const SHIPPED_OUTPUT_FOLDER: string := PROJECT_ROOT_TOKEN + "/" + DEV_DOCS
  const SHIPPED_DECLARATION: string := OUTPUT_KEY + " " + ("'" + SHIPPED_OUTPUT_FOLDER + "'")

  /** The declaration in the shipped module configuration. */
  lemma ExtractProjectRootDevDocs()
    ensures ExtractOutputFolder(SHIPPED_DECLARATION) == Some(SHIPPED_OUTPUT_FOLDER)
  {
    var inner := SHIPPED_OUTPUT_FOLDER;
    var v := "'" + inner + "'";
    ShippedFolderHasOneLine();
    QuotedHasOneLine(inner, '\'');
    assert v == ['\''] + inner + ['\''];
    SingleDeclaration(v);
    UnquoteQuoted(inner, '\'');
  }

  lemma ShippedFolderHasOneLine()
    ensures NoLineTerminator(SHIPPED_OUTPUT_FOLDER)
  {
    var token, dir := PROJECT_ROOT_TOKEN, DEV_DOCS;
    forall i | 0 <= i < |token| ensures !IsLineTerminator(token[i]) {
    }
    forall i | 0 <= i < |dir| ensures !IsLineTerminator(dir[i]) {
    }
    LinesConcat(token, "/");
    LinesConcat(token + "/", dir);
  }

  lemma LinesConcat(a: string, b: string)
    requires NoLineTerminator(a) && NoLineTerminator(b)
    ensures NoLineTerminator(a + b)
  {
    forall i | 0 <= i < |a + b| ensures !IsLineTerminator((a + b)[i]) {
      if i >= |a| {
        assert (a + b)[i] == b[i - |a|];
      }
    }
  }

  /** A quoted one-line value is one line, with a quote at either end. */
  lemma QuotedHasOneLine(inner: string, quote: char)
    requires NoLineTerminator(inner) && (quote == '\'' || quote == '"')
    ensures var v := [quote] + inner + [quote];
            v != "" && !IsSpace(v[0]) && !IsSpace(v[|v| - 1]) && NoLineTerminator(v)
  {
    LinesConcat([quote], inner);
    LinesConcat([quote] + inner, [quote]);
  }

  lemma TrimOfTrimmed(s: string)
    requires s != "" && !IsSpace(s[0]) && !IsSpace(s[|s| - 1])
    ensures Trim(s) == s
  {
  }

  lemma TrimStartSkipsOne(s: string)
    requires |s| >= 2 && IsSpace(s[0]) && !IsSpace(s[1])
    ensures TrimStart(s) == s[1..]
  {
  }

  /** `{project-root}` replaced, in any letter case and at every
      occurrence, by the repository path. */
  function Templated(canonical: Path, token: string): string {
    ReplaceAllIgnoreCase(token, PROJECT_ROOT_TOKEN, PathString(canonical))
  }

  /** Where the output folder is: the templated value, taken as is when
      absolute and otherwise below the repository, then normalized. */
  function OutputLocation(canonical: Path, token: string): (r: Path)
    ensures ValidPath(canonical) ==> ValidPath(r)
  {
    Resolve(canonical, Templated(canonical, token))
  }

  /** The placeholder at the front becomes the repository path; the rest,
      holding no placeholder, is kept. */
  lemma TemplatedPlaceholder(canonical: Path, tail: string)
    requires !HasOccurrence(tail, PROJECT_ROOT_TOKEN)
    ensures Templated(canonical, PROJECT_ROOT_TOKEN + tail) == PathString(canonical) + tail
  {
    assert EqualsIgnoreCase(PROJECT_ROOT_TOKEN, PROJECT_ROOT_TOKEN);
    ReplaceAtFront(PROJECT_ROOT_TOKEN, tail, PROJECT_ROOT_TOKEN, PathString(canonical));
    ReplaceWithoutOccurrence(tail, PROJECT_ROOT_TOKEN, PathString(canonical));
  }

  /** A placeholder anywhere in the value, in any letter case, becomes the
      repository path, provided no earlier placeholder starts before it and
      none follows it. */
  lemma TemplatedOccurrence(canonical: Path, before: string, written: string, after: string)
    requires EqualsIgnoreCase(written, PROJECT_ROOT_TOKEN)
    requires forall i :: 0 <= i < |before| ==> !OccursAt(before + written + after, PROJECT_ROOT_TOKEN, i)
    requires !HasOccurrence(after, PROJECT_ROOT_TOKEN)
    ensures Templated(canonical, before + written + after) == before + PathString(canonical) + after
  {
    ReplaceFirstOccurrence(before, written, after, PROJECT_ROOT_TOKEN, PathString(canonical));
    ReplaceWithoutOccurrence(after, PROJECT_ROOT_TOKEN, PathString(canonical));
  }

  /** `docs/{Project-Root}/x`: a capitalised placeholder in the middle is
      replaced as well. */
  lemma TemplatedMixedCase(canonical: Path)
    ensures Templated(canonical, "docs/{Project-Root}/x") == "docs/" + PathString(canonical) + "/x"
  {
    var before, written, after := "docs/", "{Project-Root}", "/x";
    var s := before + written + after;
    assert s == "docs/{Project-Root}/x";
    assert EqualsIgnoreCase(written, PROJECT_ROOT_TOKEN) by {
      forall i | 0 <= i < |written|
        ensures LowerChar(written[i]) == LowerChar(PROJECT_ROOT_TOKEN[i])
      {
      }
    }
    forall i | 0 <= i < |before|
      ensures !OccursAt(s, PROJECT_ROOT_TOKEN, i)
    {
      if i <= |s| - |PROJECT_ROOT_TOKEN| {
        assert s[i..i + |PROJECT_ROOT_TOKEN|][0] == before[i];
        assert LowerChar(before[i]) != LowerChar(PROJECT_ROOT_TOKEN[0]);
      }
    }
    assert !HasOccurrence(after, PROJECT_ROOT_TOKEN) by {
      assert |after| < |PROJECT_ROOT_TOKEN|;
    }
    TemplatedOccurrence(canonical, before, written, after);
  }

  lemma NoOccurrenceAfterSlash(s: string)
    requires !HasOccurrence("/" + s, PROJECT_ROOT_TOKEN)
    ensures !HasOccurrence(s, PROJECT_ROOT_TOKEN)
  {
    forall i | OccursAt(s, PROJECT_ROOT_TOKEN, i) ensures false {
      assert ("/" + s)[i + 1..i + 1 + |PROJECT_ROOT_TOKEN|] == s[i..i + |PROJECT_ROOT_TOKEN|];
      assert OccursAt("/" + s, PROJECT_ROOT_TOKEN, i + 1);
    }
  }

  /** A value that begins with the placeholder and a separator names the
      same folder as the rest written relative to the repository. */
  lemma PlaceholderSameAsRelative(canonical: Path, s: string)
    requires ValidPath(canonical) && !StartsWith(s, "/")
    requires !HasOccurrence("/" + s, PROJECT_ROOT_TOKEN)
    ensures OutputLocation(canonical, PROJECT_ROOT_TOKEN + "/" + s) == OutputLocation(canonical, s)
    ensures OutputLocation(canonical, s) == Walk(canonical, Split(s, '/'))
  {
    assert PROJECT_ROOT_TOKEN + "/" + s == PROJECT_ROOT_TOKEN + ("/" + s);
    TemplatedPlaceholder(canonical, "/" + s);
    assert PathString(canonical) + ("/" + s) == PathString(canonical) + "/" + s;
    ResolveBelow(canonical, canonical, s);
    NoOccurrenceAfterSlash(s);
    ReplaceWithoutOccurrence(s, PROJECT_ROOT_TOKEN, PathString(canonical));
  }

  /** The shipped declaration `{project-root}/devDocs` is the `devDocs`
      folder of the repository. */
  lemma DevDocsBelowRepository(canonical: Path)
    requires ValidPath(canonical)
    ensures OutputLocation(canonical, SHIPPED_OUTPUT_FOLDER) == canonical + [DEV_DOCS]
  {
    DevDocsIsPlainSegment();
    PlaceholderSegment(canonical, DEV_DOCS);
  }

  /** The placeholder, a separator and one plain segment name that
      segment of the repository. */
  lemma PlaceholderSegment(canonical: Path, dir: string)
    requires ValidPath(canonical) && ValidSegment(dir)
    requires !HasOccurrence("/" + dir, PROJECT_ROOT_TOKEN)
    ensures OutputLocation(canonical, PROJECT_ROOT_TOKEN + "/" + dir) == canonical + [dir]
  {
    assert !StartsWith(dir, "/") by {
      assert dir[0] != '/';
    }
    PlaceholderSameAsRelative(canonical, dir);
    assert ValidPath([dir]);
    JoinSingle(dir, '/');
    WalkJoined(canonical, [dir]);
  }

  /** `devDocs` is a segment free of the placeholder. */
  lemma DevDocsIsPlainSegment()
    ensures !HasOccurrence("/" + DEV_DOCS, PROJECT_ROOT_TOKEN)
    ensures ValidSegment(DEV_DOCS)
  {
    var dir := DEV_DOCS;
    assert |"/" + dir| < |PROJECT_ROOT_TOKEN|;
    forall i | 0 <= i < |dir| ensures dir[i] != '/' {
    }
  }
}
