/** POSIX path handling as Node's `path` module does it for the core:
    `resolve`, `join`, `relative`, `basename`, on paths represented as
    sequences of segments. */
module Paths {
  import opened Text

  /** An absolute path, as the sequence of its segments below `/`. */
  type Path = seq<string>

  /** A segment of a normalized path. */
  predicate ValidSegment(s: string) {
    s != "" && s != "." && s != ".." && '/' !in s
  }

  predicate ValidPath(p: Path) {
    forall i :: 0 <= i < |p| ==> ValidSegment(p[i])
  }

  /** Whether no piece contains a separator (the pieces of a split). */
  predicate SeparatorFree(parts: seq<string>) {
    forall k :: 0 <= k < |parts| ==> '/' !in parts[k]
  }

  /** One step of normalization: empty and `.` pieces vanish, `..` climbs
      (never above `/`), anything else descends. */
  function Step(acc: Path, piece: string): Path {
    if piece == "" || piece == "." then acc
    else if piece == ".." then (if acc == [] then [] else acc[..|acc| - 1])
    else acc + [piece]
  }

  /** Normalizes the pieces left to right, starting from `acc`. */
  function Walk(acc: Path, pieces: seq<string>): (r: Path)
    ensures ValidPath(acc) && SeparatorFree(pieces) ==> ValidPath(r)
    decreases |pieces|
  {
    if pieces == [] then acc else Walk(Step(acc, pieces[0]), pieces[1..])
  }

  /** `path.resolve(base, s)`: an absolute `s` starts from `/`, a relative
      one from `base`; the result is normalized. */
  function Resolve(base: Path, s: string): (r: Path)
    ensures ValidPath(base) ==> ValidPath(r)
  {
    Walk(if StartsWith(s, "/") then [] else base, Split(s, '/'))
  }

  /** The string form of an absolute path. */
  function PathString(p: Path): string {
    "/" + Join(p, '/')
  }

  /** Walking pieces in two batches is walking them at once. */
  lemma {:induction false} WalkConcat(acc: Path, a: seq<string>, b: seq<string>)
    ensures Walk(acc, a + b) == Walk(Walk(acc, a), b)
    decreases |a|
  {
    if a != [] {
      assert (a + b)[1..] == a[1..] + b;
      WalkConcat(Step(acc, a[0]), a[1..], b);
    } else {
      assert a + b == b;
    }
  }

  /** Normalized segments are taken as they are. */
  lemma {:induction false} WalkValid(acc: Path, segs: seq<string>)
    requires ValidPath(segs)
    ensures Walk(acc, segs) == acc + segs
    decreases |segs|
  {
    if segs != [] {
      WalkValid(acc + [segs[0]], segs[1..]);
      assert acc + [segs[0]] + segs[1..] == acc + segs;
    }
  }

  /** Resolving the string form of a normalized path gives the path back,
      whatever the base. */
  lemma ResolvePathString(base: Path, p: Path)
    requires ValidPath(p)
    ensures Resolve(base, PathString(p)) == p
  {
    assert StartsWith(PathString(p), "/");
    SplitAppend("", Join(p, '/'), '/');
    assert PathString(p) == "" + ['/'] + Join(p, '/');
    if p == [] {
      assert Split("", '/') == [""];
      assert Split("/", '/') == ["", ""];
      assert Walk([], [""]) == Walk([], []);
    } else {
      SplitJoin(p, '/');
      WalkValid([], p);
      assert [""] + p == [""] + p;
      assert Walk([], [""] + p) == Walk([], p);
    }
  }

  /** A string appended after the string form of a normalized path is
      resolved from that path. */
  lemma ResolveBelow(base: Path, p: Path, s: string)
    requires ValidPath(p)
    ensures Resolve(base, PathString(p) + "/" + s) == Walk(p, Split(s, '/'))
  {
    var x := PathString(p);
    assert x + "/" + s == x + ['/'] + s;
    SplitConcat(x, s, '/');
    ResolvePathString(base, p);
    WalkConcat([], Split(x, '/'), Split(s, '/'));
    assert StartsWith(x + "/" + s, "/") by {
      assert (x + "/" + s)[..1] == x[..1];
    }
  }

  /** Resolving normalized segments from `p` descends into them. */
  lemma WalkJoined(p: Path, rest: seq<string>)
    requires ValidPath(rest)
    ensures Walk(p, Split(Join(rest, '/'), '/')) == p + rest
  {
    if rest == [] {
      assert Split("", '/') == [""];
      assert Walk(p, [""]) == Walk(p, []);
    } else {
      SplitJoin(rest, '/');
      WalkValid(p, rest);
    }
  }

  /** `path.join(a, b)` followed by resolution: an empty `a` contributes nothing. */
  function JoinString(a: string, b: string): string {
    if a == "" then b else a + "/" + b
  }

  /** `path.basename`. */
  function Basename(p: Path): string {
    if p == [] then "" else p[|p| - 1]
  }

  predicate IsPrefix(a: Path, b: Path) {
    |a| <= |b| && b[..|a|] == a
  }

  /** Length of the longest common prefix of two paths. */
  function CommonPrefixLength(a: Path, b: Path): (k: nat)
    ensures k <= |a| && k <= |b| && a[..k] == b[..k]
    ensures k < |a| && k < |b| ==> a[k] != b[k]
  {
    if a == [] || b == [] || a[0] != b[0] then 0
    else
      var k := CommonPrefixLength(a[1..], b[1..]);
      assert a[..k + 1] == [a[0]] + a[1..][..k];
      assert b[..k + 1] == [b[0]] + b[1..][..k];
      k + 1
  }

  /** The pieces of `path.relative(from, to)`: one `..` per segment of `from`
      below the common prefix, then the rest of `to`. */
  function RelativeSegments(from: Path, to: Path): seq<string> {
    var k := CommonPrefixLength(from, to);
    seq(|from| - k, _ => "..") + to[k..]
  }

  /** `path.relative(from, to)` on POSIX. */
  function Relative(from: Path, to: Path): string {
    Join(RelativeSegments(from, to), '/')
  }

  /** `path.relative(from, to) || "."`. */
  function RelativeOrDot(from: Path, to: Path): (r: string)
    ensures r != ""
  {
    var rel := Relative(from, to);
    if rel == "" then "." else rel
  }

  /** `path.isAbsolute` of a string on POSIX. */
  predicate IsAbsoluteString(s: string) {
    StartsWith(s, "/")
  }

  /** `isPathInside(base, target)`: the relative path is empty, or neither
      starts with the two characters `..` nor is absolute. */
  predicate IsPathInside(base: Path, target: Path) {
    var rel := Relative(base, target);
    rel == "" || (!StartsWith(rel, "..") && !IsAbsoluteString(rel))
  }

  /** What the test means on segments: `base` is a prefix of `target`, and
      the first segment below `base`, if any, does not begin with `..`
      (so a child named `..x` is refused as if it were an escape). */
  predicate InsideBySegments(base: Path, target: Path) {
    IsPrefix(base, target) && (|target| == |base| || !StartsWith(target[|base|], ".."))
  }

  /** The joined pieces start with the first piece, and the next character,
      if there are more pieces, is the separator. */
  lemma JoinHead(segs: seq<string>)
    requires |segs| >= 1
    ensures StartsWith(Join(segs, '/'), segs[0])
    ensures |segs| > 1 ==> |Join(segs, '/')| > |segs[0]| && Join(segs, '/')[|segs[0]|] == '/'
  {
    if |segs| > 1 {
      assert Join(segs, '/') == segs[0] + ['/'] + Join(segs[1..], '/');
    }
  }

  /** Joining normalized segments gives the empty string only for no segments. */
  lemma JoinEmpty(segs: seq<string>)
    requires |segs| >= 1 && segs[0] != ""
    ensures Join(segs, '/') != ""
  {
    JoinHead(segs);
  }

  /** The string test of `isPathInside` decides exactly `InsideBySegments`. */
  lemma InsideCharacterization(base: Path, target: Path)
    requires ValidPath(base) && ValidPath(target)
    ensures IsPathInside(base, target) <==> InsideBySegments(base, target)
  {
    var k := CommonPrefixLength(base, target);
    var segs := RelativeSegments(base, target);
    var rel := Relative(base, target);
    if k < |base| {
      assert segs[0] == "..";
      JoinHead(segs);
      assert StartsWith(rel, "..");
      assert !IsPrefix(base, target) by {
        if |base| <= |target| {
          assert k < |target|;
          assert target[..|base|][k] == target[k] != base[k];
        }
      }
    } else {
      assert base == target[..|base|];
      assert segs == target[|base|..];
      if |target| > |base| {
        var first := target[|base|];
        assert segs[0] == first;
        JoinHead(segs);
        JoinEmpty(segs);
        assert rel[0] == first[0];
        assert !IsAbsoluteString(rel);
        if |first| == 1 {
          assert first == [first[0]];
        } else {
          assert rel[..2] == first[..2];
        }
      } else {
        assert segs == [];
      }
    }
  }

  /** Containment never lets a path escape its root. */
  lemma InsideIsPrefix(base: Path, target: Path)
    requires ValidPath(base) && ValidPath(target)
    requires IsPathInside(base, target)
    ensures IsPrefix(base, target)
  {
    InsideCharacterization(base, target);
  }

  /** The relative path from a directory to one of its descendants is the
      descendant's extra segments joined with `/`. */
  lemma RelativeToDescendant(base: Path, rest: seq<string>)
    ensures Relative(base, base + rest) == Join(rest, '/')
  {
    var target := base + rest;
    var k := CommonPrefixLength(base, target);
    assert k == |base|;
    assert target[k..] == rest;
    assert seq(|base| - k, _ => "..") == [];
    assert RelativeSegments(base, target) == rest;
    assert Relative(base, target) == Join(RelativeSegments(base, target), '/');
  }

  /** The output folder at the repository root is reported as `.`. */
  lemma RelativeOrDotSelf(base: Path)
    ensures RelativeOrDot(base, base) == "."
  {
    RelativeToDescendant(base, []);
    assert base + [] == base;
  }

  /** Every path is inside itself and inside each of its ancestors whose
      next segment does not begin with `..`. */
  lemma InsideOwnDescendant(base: Path, rest: seq<string>)
    requires ValidPath(base) && ValidPath(rest)
    requires rest == [] || !StartsWith(rest[0], "..")
    ensures IsPathInside(base, base + rest)
  {
    assert (base + rest)[..|base|] == base;
    if rest != [] { assert (base + rest)[|base|] == rest[0]; }
    InsideCharacterization(base, base + rest);
  }

  /** The `startsWith("..")` quirk: a child directory whose name begins with
      two dots is refused although it lies inside the root. */
  lemma DotDotNamedChildRefused(base: Path, name: string)
    requires ValidPath(base) && ValidSegment(name) && StartsWith(name, "..")
    ensures !IsPathInside(base, base + [name])
  {
    assert (base + [name])[|base|] == name;
    assert ValidPath(base + [name]);
    InsideCharacterization(base, base + [name]);
  }

  /** `path.resolve(base, path.join(dir, rel))` for a relative `rel`: the
      pieces of `rel` are walked from the resolved `dir`. (Normalizing the
      joined string first does not change what `resolve` yields.) */
  lemma ResolveJoined(base: Path, dir: string, rel: string)
    requires !StartsWith(rel, "/")
    ensures Resolve(base, JoinString(dir, rel)) == Walk(Resolve(base, dir), Split(rel, '/'))
  {
    if dir == "" {
      assert Split("", '/') == [""];
      assert Walk(base, [""]) == Walk(base, []);
    } else {
      var x := dir + "/" + rel;
      assert x == dir + ['/'] + rel;
      SplitConcat(dir, rel, '/');
      assert x[..1] == dir[..1];
      WalkConcat(if StartsWith(dir, "/") then [] else base, Split(dir, '/'), Split(rel, '/'));
    }
  }

  /** The pieces that survive normalization when none of them climbs. */
  function Kept(pieces: seq<string>): (r: seq<string>)
    ensures SeparatorFree(pieces) && (forall k :: 0 <= k < |pieces| ==> pieces[k] != "..") ==> ValidPath(r)
  {
    if pieces == [] then []
    else (if pieces[0] == "" || pieces[0] == "." then [] else [pieces[0]]) + Kept(pieces[1..])
  }

  /** Pieces without `..` only descend. */
  lemma {:induction false} WalkWithoutParent(acc: Path, pieces: seq<string>)
    requires forall k :: 0 <= k < |pieces| ==> pieces[k] != ".."
    ensures Walk(acc, pieces) == acc + Kept(pieces)
    decreases |pieces|
  {
    if pieces != [] {
      var head: seq<string> := if pieces[0] == "" || pieces[0] == "." then [] else [pieces[0]];
      var rest := pieces[1..];
      FirstStepDescends(acc, pieces, head);
      assert forall k :: 0 <= k < |rest| ==> rest[k] == pieces[k + 1];
      WalkWithoutParent(acc + head, rest);
      AppendAssociates(acc, head, Kept(rest));
    }
  }

  lemma AppendAssociates<T>(a: seq<T>, b: seq<T>, c: seq<T>)
    ensures (a + b) + c == a + (b + c)
  {
  }

  /** A first piece other than `..` is kept or dropped, never climbs. */
  lemma FirstStepDescends(acc: Path, pieces: seq<string>, head: seq<string>)
    requires pieces != [] && pieces[0] != ".."
    requires head == if pieces[0] == "" || pieces[0] == "." then [] else [pieces[0]]
    ensures Walk(acc, pieces) == Walk(acc + head, pieces[1..])
    ensures Kept(pieces) == head + Kept(pieces[1..])
  {
    assert Step(acc, pieces[0]) == acc + head;
  }
}
