/** String operations of the JavaScript runtime that the core relies on:
    `String.prototype.trim`, `startsWith`, `includes`, `split` on one
    character, ASCII case folding and a global case-insensitive replace. */
module Text {

  /** A line terminator as the ECMAScript grammar defines it (`.` in a
      regular expression does not match these). */
  predicate IsLineTerminator(c: char) {
    c == '\n' || c == '\r' || c == '\U{2028}' || c == '\U{2029}'
  }

  /** The characters `trim()` removes and `\s` matches: ECMAScript
      WhiteSpace (with the Unicode space separators) and LineTerminator. */
  predicate IsSpace(c: char) {
    || c == '\t' || c == '\U{B}' || c == '\U{C}' || c == ' '
    || c == '\U{A0}' || c == '\U{1680}' || ('\U{2000}' <= c <= '\U{200A}')
    || c == '\U{202F}' || c == '\U{205F}' || c == '\U{3000}' || c == '\U{FEFF}'
    || IsLineTerminator(c)
  }

  predicate AllSpace(s: string) {
    forall i :: 0 <= i < |s| ==> IsSpace(s[i])
  }

  /** Drops the leading white space. */
  function TrimStart(s: string): (r: string)
    ensures |r| <= |s| && r == s[|s| - |r|..]
    ensures r == "" || !IsSpace(r[0])
    ensures AllSpace(s[..|s| - |r|])
  {
    if s != [] && IsSpace(s[0]) then TrimStart(s[1..]) else s
  }

  /** Drops the trailing white space. */
  function TrimEnd(s: string): (r: string)
    ensures |r| <= |s| && r == s[..|r|]
    ensures r == "" || !IsSpace(r[|r| - 1])
    ensures AllSpace(s[|r|..])
  {
    if s != [] && IsSpace(s[|s| - 1]) then
      var init := s[..|s| - 1];
      var r := TrimEnd(init);
      assert AllSpace(s[|r|..]) by {
        forall i | |r| <= i < |s|
          ensures IsSpace(s[i])
        {
          if i < |init| {
            assert s[i] == init[|r|..][i - |r|];
          }
        }
      }
      r
    else s
  }

  /** `String.prototype.trim`. */
  function Trim(s: string): (r: string)
    ensures r == "" || (!IsSpace(r[0]) && !IsSpace(r[|r| - 1]))
    ensures r == "" <==> AllSpace(s)
  {
    var t := TrimStart(s);
    var r := TrimEnd(t);
    assert r == "" ==> AllSpace(s) by {
      if r == "" {
        assert s == s[..|s| - |t|] + t;
        assert t == t[|r|..];
      }
    }
    assert t != "" ==> !AllSpace(s) by {
      if t != "" {
        assert t[0] == s[|s| - |t|];
      }
    }
    r
  }

  predicate StartsWith(s: string, prefix: string) {
    |prefix| <= |s| && s[..|prefix|] == prefix
  }

  predicate EndsWith(s: string, suffix: string) {
    |suffix| <= |s| && s[|s| - |suffix|..] == suffix
  }

  /** `String.prototype.includes`. */
  function Contains(s: string, part: string): (b: bool)
    ensures b <==> exists i :: 0 <= i <= |s| - |part| && StartsWith(s[i..], part)
  {
    if StartsWith(s, part) then
      assert StartsWith(s[0..], part);
      true
    else if |s| <= |part| || s == [] then
      assert forall i :: 0 <= i <= |s| - |part| ==> i == 0 && s[i..] == s;
      false
    else
      var b := Contains(s[1..], part);
      assert forall i :: 1 <= i <= |s| - |part| ==> s[i..] == s[1..][i - 1..];
      if b then
        var j :| 0 <= j <= |s| - 1 - |part| && StartsWith(s[1..][j..], part);
        assert s[1..][j..] == s[j + 1..];
        true
      else
        false
  }

  /** ASCII lower-casing of one character (the only case mapping that can
      turn a character into one of the ASCII letters the core compares with). */
  function LowerChar(c: char): char {
    if 'A' <= c <= 'Z' then (c as int + 32) as char else c
  }

  /** Case-insensitive equality as the core uses it (`toLowerCase() ===` on
      an ASCII constant, a regular expression with the `i` flag). */
  predicate EqualsIgnoreCase(a: string, b: string) {
    |a| == |b| && forall i :: 0 <= i < |a| ==> LowerChar(a[i]) == LowerChar(b[i])
  }

  /** `s.split(sep)` for a one-character separator. */
  function Split(s: string, sep: char): (parts: seq<string>)
    ensures |parts| >= 1
    ensures forall k :: 0 <= k < |parts| ==> sep !in parts[k]
  {
    if s == [] then [""]
    else
      var rest := Split(s[1..], sep);
      if s[0] == sep then [""] + rest
      else [[s[0]] + rest[0]] + rest[1..]
  }

  /** `parts.join(sep)`. */
  function Join(parts: seq<string>, sep: char): string {
    if |parts| == 0 then ""
    else if |parts| == 1 then parts[0]
    else parts[0] + [sep] + Join(parts[1..], sep)
  }

  lemma JoinSingle(a: string, sep: char)
    ensures Join([a], sep) == a
  {
  }

  lemma JoinPair(a: string, b: string, sep: char)
    ensures Join([a, b], sep) == a + [sep] + b
  {
    assert [a, b][1..] == [b];
  }

  /** Joining the pieces of a split gives the string back. */
  lemma {:induction false} JoinSplit(s: string, sep: char)
    ensures Join(Split(s, sep), sep) == s
  {
    if s != [] {
      var rest := Split(s[1..], sep);
      JoinSplit(s[1..], sep);
      if s[0] == sep {
        assert Join([""] + rest, sep) == "" + [sep] + Join(rest, sep);
      } else if |rest| == 1 {
        assert Split(s, sep) == [[s[0]] + rest[0]];
      } else {
        var parts := Split(s, sep);
        assert parts[1..] == rest[1..];
        assert Join(rest, sep) == rest[0] + [sep] + Join(rest[1..], sep);
      }
    }
  }

  /** Splitting a join of separator-free pieces gives the pieces back. */
  lemma {:induction false} SplitJoin(parts: seq<string>, sep: char)
    requires |parts| >= 1
    requires forall k :: 0 <= k < |parts| ==> sep !in parts[k]
    ensures Split(Join(parts, sep), sep) == parts
  {
    if |parts| == 1 {
      SplitNoSeparator(parts[0], sep);
    } else {
      SplitJoin(parts[1..], sep);
      SplitAppend(parts[0], Join(parts[1..], sep), sep);
      assert [parts[0]] + parts[1..] == parts;
    }
  }

  lemma {:induction false} SplitNoSeparator(s: string, sep: char)
    requires sep !in s
    ensures Split(s, sep) == [s]
  {
    if s != [] {
      SplitNoSeparator(s[1..], sep);
      assert [s[0]] + s[1..] == s;
    }
  }

  /** Splitting `a + sep + b` where `a` has no separator. */
  lemma {:induction false} SplitAppend(a: string, b: string, sep: char)
    requires sep !in a
    ensures Split(a + [sep] + b, sep) == [a] + Split(b, sep)
  {
    if a == [] {
      assert [sep] + b == a + [sep] + b;
      assert ([sep] + b)[1..] == b;
    } else {
      SplitAppend(a[1..], b, sep);
      assert (a + [sep] + b)[1..] == a[1..] + [sep] + b;
      var rest := Split(a[1..] + [sep] + b, sep);
      assert rest[0] == a[1..] && rest[1..] == Split(b, sep);
      assert [a[0]] + a[1..] == a;
    }
  }

  /** Splitting at a separator splits the two sides independently. */
  lemma {:induction false} SplitConcat(a: string, b: string, sep: char)
    ensures Split(a + [sep] + b, sep) == Split(a, sep) + Split(b, sep)
    decreases |a|
  {
    if a == [] {
      assert a + [sep] + b == [sep] + b && ([sep] + b)[1..] == b;
    } else {
      SplitConcat(a[1..], b, sep);
      SplitConcatStep(a, b, sep);
    }
  }

  /** The inductive step of `SplitConcat`: one more leading character. */
  lemma SplitConcatStep(a: string, b: string, sep: char)
    requires a != []
    requires Split(a[1..] + [sep] + b, sep) == Split(a[1..], sep) + Split(b, sep)
    ensures Split(a + [sep] + b, sep) == Split(a, sep) + Split(b, sep)
  {
    var s := a + [sep] + b;
    assert s[0] == a[0] && s[1..] == a[1..] + [sep] + b;
    var left, right := Split(a[1..], sep), Split(b, sep);
    if a[0] == sep {
      assert [""] + (left + right) == ([""] + left) + right;
    } else {
      ExtendFirst([a[0]], left, right);
    }
  }

  /** Extending the first piece of `left + right` extends the first piece of `left`. */
  lemma ExtendFirst<T>(x: seq<T>, left: seq<seq<T>>, right: seq<seq<T>>)
    requires |left| >= 1
    ensures [x + (left + right)[0]] + (left + right)[1..] == ([x + left[0]] + left[1..]) + right
  {
    assert (left + right)[0] == left[0];
    assert (left + right)[1..] == left[1..] + right;
  }

  /** `s.replace(/<pattern>/gi, replacement)` for a pattern without regular
      expression metacharacters: every case-insensitive occurrence, scanning
      left to right, is replaced. */
  function ReplaceAllIgnoreCase(s: string, pattern: string, replacement: string): string
    requires pattern != ""
    decreases |s|
  {
    if |pattern| <= |s| && EqualsIgnoreCase(s[..|pattern|], pattern) then
      replacement + ReplaceAllIgnoreCase(s[|pattern|..], pattern, replacement)
    else if s == [] then []
    else [s[0]] + ReplaceAllIgnoreCase(s[1..], pattern, replacement)
  }

  /** The pattern occurs, in any letter case, at position `i` of `s`. */
  predicate OccursAt(s: string, pattern: string, i: int) {
    0 <= i <= |s| - |pattern| && EqualsIgnoreCase(s[i..i + |pattern|], pattern)
  }

  ghost predicate HasOccurrence(s: string, pattern: string) {
    exists i :: OccursAt(s, pattern, i)
  }

  /** A string without any occurrence of the pattern is left unchanged. */
  lemma {:induction false} ReplaceWithoutOccurrence(s: string, pattern: string, replacement: string)
    requires pattern != ""
    requires !HasOccurrence(s, pattern)
    ensures ReplaceAllIgnoreCase(s, pattern, replacement) == s
  {
    if s != [] {
      if |pattern| <= |s| {
        assert s[0..|pattern|] == s[..|pattern|];
      }
      assert !OccursAt(s, pattern, 0);
      assert !HasOccurrence(s[1..], pattern) by {
        forall i | 0 <= i <= |s[1..]| - |pattern|
          ensures !OccursAt(s[1..], pattern, i)
        {
          assert s[1..][i..i + |pattern|] == s[i + 1..i + 1 + |pattern|];
          assert !OccursAt(s, pattern, i + 1);
        }
      }
      ReplaceWithoutOccurrence(s[1..], pattern, replacement);
    }
  }

  /** An occurrence at the front, in any letter case, becomes the replacement. */
  lemma ReplaceAtFront(written: string, rest: string, pattern: string, replacement: string)
    requires pattern != "" && EqualsIgnoreCase(written, pattern)
    ensures ReplaceAllIgnoreCase(written + rest, pattern, replacement)
         == replacement + ReplaceAllIgnoreCase(rest, pattern, replacement)
  {
    assert (written + rest)[..|pattern|] == written;
    assert (written + rest)[|pattern|..] == rest;
  }

  /** The leftmost occurrence, in any letter case and wherever it starts,
      becomes the replacement; the text before it is kept as it is and the
      text after it is processed in turn. */
  lemma ReplaceFirstOccurrence(before: string, written: string, after: string, pattern: string, replacement: string)
    requires pattern != "" && EqualsIgnoreCase(written, pattern)
    requires forall i :: 0 <= i < |before| ==> !OccursAt(before + written + after, pattern, i)
    ensures ReplaceAllIgnoreCase(before + written + after, pattern, replacement)
         == before + replacement + ReplaceAllIgnoreCase(after, pattern, replacement)
  {
    var rest := written + after;
    assert before + written + after == before + rest;
    ReplaceKeepsPrefix(before, rest, pattern, replacement);
    ReplaceAtFront(written, after, pattern, replacement);
  }

  /** A prefix in which no occurrence starts is kept as it is. */
  lemma {:induction false} ReplaceKeepsPrefix(before: string, rest: string, pattern: string, replacement: string)
    requires pattern != ""
    requires forall i :: 0 <= i < |before| ==> !OccursAt(before + rest, pattern, i)
    ensures ReplaceAllIgnoreCase(before + rest, pattern, replacement)
         == before + ReplaceAllIgnoreCase(rest, pattern, replacement)
    decreases |before|
  {
    if before == [] {
      assert before + rest == rest;
    } else {
      NoOccurrenceBeforeShifts(before, rest, pattern);
      ReplaceSkipsFirst(before + rest, pattern, replacement);
      ReplaceKeepsPrefix(before[1..], rest, pattern, replacement);
      assert before == [before[0]] + before[1..];
    }
  }

  /** Dropping the first character keeps the absence of occurrences
      starting in what remains of the prefix. */
  lemma NoOccurrenceBeforeShifts(before: string, rest: string, pattern: string)
    requires before != []
    requires forall i :: 0 <= i < |before| ==> !OccursAt(before + rest, pattern, i)
    ensures (before + rest)[1..] == before[1..] + rest
    ensures !OccursAt(before + rest, pattern, 0)
    ensures forall i :: 0 <= i < |before| - 1 ==> !OccursAt(before[1..] + rest, pattern, i)
  {
    var s := before + rest;
    var t := before[1..] + rest;
    assert s[1..] == t;
    forall i | 0 <= i < |before| - 1
      ensures !OccursAt(t, pattern, i)
    {
      assert !OccursAt(s, pattern, i + 1);
      if i <= |t| - |pattern| {
        assert t[i..i + |pattern|] == s[i + 1..i + 1 + |pattern|];
      }
    }
  }

  /** Without an occurrence at the front, the first character is kept. */
  lemma ReplaceSkipsFirst(s: string, pattern: string, replacement: string)
    requires pattern != "" && s != [] && !OccursAt(s, pattern, 0)
    ensures ReplaceAllIgnoreCase(s, pattern, replacement) == [s[0]] + ReplaceAllIgnoreCase(s[1..], pattern, replacement)
  {
    if |pattern| <= |s| {
      assert s[0..|pattern|] == s[..|pattern|];
    }
  }

  /** The first piece of a split is a prefix of the string. */
  lemma {:induction false} SplitHeadIsPrefix(s: string, sep: char)
    ensures StartsWith(s, Split(s, sep)[0])
    decreases |s|
  {
    if s != [] && s[0] != sep {
      SplitHeadIsPrefix(s[1..], sep);
      var rest := Split(s[1..], sep);
      assert s[..1 + |rest[0]|] == [s[0]] + s[1..][..|rest[0]|];
    }
  }

  /** A string that starts with a separator-free word has a first piece
      that starts with it too. */
  lemma {:induction false} SplitHeadStartsWith(s: string, word: string, sep: char)
    requires StartsWith(s, word) && sep !in word
    ensures StartsWith(Split(s, sep)[0], word)
    decreases |word|
  {
    if word != [] {
      assert s[0] == word[0];
      assert StartsWith(s[1..], word[1..]) by {
        assert s[1..][..|word| - 1] == s[..|word|][1..];
      }
      SplitHeadStartsWith(s[1..], word[1..], sep);
      var rest := Split(s[1..], sep);
      assert Split(s, sep)[0] == [s[0]] + rest[0];
      assert ([s[0]] + rest[0])[..|word|] == [s[0]] + rest[0][..|word| - 1];
      assert word == [word[0]] + word[1..];
    }
  }

  /** A string without two consecutive dots has none in a suffix either. */
  lemma NoDotsInTail(s: string)
    requires s != [] && !Contains(s, "..")
    ensures !Contains(s[1..], "..")
  {
    forall i | 0 <= i <= |s[1..]| - 2 ensures !StartsWith(s[1..][i..], "..") {
      assert s[1..][i..] == s[i + 1..];
    }
  }

  /** No piece of the split of a string without `..` is `..`. */
  lemma {:induction false} SplitAvoidsDotDot(s: string, sep: char)
    requires !Contains(s, "..") && sep != '.'
    ensures forall k :: 0 <= k < |Split(s, sep)| ==> Split(s, sep)[k] != ".."
    decreases |s|
  {
    if s != [] {
      NoDotsInTail(s);
      SplitAvoidsDotDot(s[1..], sep);
      assert !StartsWith(s, "..") by {
        assert s[0..] == s;
      }
      SplitHeadIsPrefix(s, sep);
      if s[0] != sep {
        var rest := Split(s[1..], sep);
        assert forall k :: 1 <= k < |Split(s, sep)| ==> Split(s, sep)[k] == rest[k];
      }
    }
  }

  /** A string none of whose adjacent characters are both dots does not
      contain `..`. */
  lemma NoAdjacentDots(s: string)
    requires forall i :: 0 <= i < |s| - 1 ==> s[i] != '.' || s[i + 1] != '.'
    ensures !Contains(s, "..")
  {
    forall i | 0 <= i <= |s| - 2 ensures !StartsWith(s[i..], "..") {
      assert s[i..][..2][0] == s[i] && s[i..][..2][1] == s[i + 1];
    }
  }
}
