/** Locating the module configuration `bmm/config.yaml` under a repository:
    two fixed candidates first, then a breadth-first search bounded in depth. */
module ConfigLocator {
  import opened Wrappers
  import opened Text
  import opened Paths
  import opened HostFs

  const CONFIG_BASENAME: string := "config.yaml"
  const CONFIG_DIR_NAME: string := "bmm"
  const SEARCH_MAX_DEPTH: nat := 5
  const IGNORED_DIRS: set<string> := {".git", "node_modules", ".next", "dist", "build", "out"}

  /** The two candidates tried before any search. */
  function PreferredHidden(root: Path): Path {
    root + [".bmad", CONFIG_DIR_NAME, CONFIG_BASENAME]
  }

  function PreferredPlain(root: Path): Path {
    root + [CONFIG_DIR_NAME, CONFIG_BASENAME]
  }

  /** `findConfigInDir`: `dir/bmm/config.yaml`, else `dir/config.yaml` when
      `dir` is itself named `bmm` in any letter case. */
  function FindConfigInDir(h: Host, dir: Path): (r: Option<Path>)
    ensures r.Some? ==> FileExists(h, r.value)
    ensures FileExists(h, dir + [CONFIG_DIR_NAME, CONFIG_BASENAME]) ==> r == Some(dir + [CONFIG_DIR_NAME, CONFIG_BASENAME])
    ensures !FileExists(h, dir + [CONFIG_DIR_NAME, CONFIG_BASENAME]) ==>
              (r.Some? <==> EqualsIgnoreCase(Basename(dir), CONFIG_DIR_NAME) && FileExists(h, dir + [CONFIG_BASENAME]))
              && (r.Some? ==> r.value == dir + [CONFIG_BASENAME])
  {
    var candidate := dir + [CONFIG_DIR_NAME, CONFIG_BASENAME];
    if FileExists(h, candidate) then Some(candidate)
    else
      var direct := dir + [CONFIG_BASENAME];
      if EqualsIgnoreCase(Basename(dir), CONFIG_DIR_NAME) && FileExists(h, direct) then Some(direct) else None
  }

  predicate HasConfig(h: Host, dir: Path) {
    FindConfigInDir(h, dir).Some?
  }

  /** A directory waiting in the search queue, with its depth below the root. */
  datatype QueueItem = QueueItem(dir: Path, depth: nat)

  /** A listed entry that the search enqueues: a directory, not ignored. */
  predicate Admits(h: Host, dir: Path, name: string) {
    DirectoryExists(h, dir + [name]) && name !in IGNORED_DIRS
  }

  /** The paths enqueued from the listing `names` of `dir`, in listing order. */
  function Children(h: Host, dir: Path, names: seq<string>): (r: seq<Path>)
    ensures |r| <= |names|
    decreases |names|
  {
    if names == [] then []
    else
      var last := names[|names| - 1];
      Children(h, dir, names[..|names| - 1]) + (if Admits(h, dir, last) then [dir + [last]] else [])
  }

  /** Every child is an admitted entry of the listing, one level below `dir`. */
  lemma {:induction false} ChildrenSound(h: Host, dir: Path, names: seq<string>, k: nat)
    requires k < |Children(h, dir, names)|
    ensures var c := Children(h, dir, names)[k];
            |c| == |dir| + 1 && c[..|dir|] == dir && c[|dir|] in names && Admits(h, dir, c[|dir|])
    decreases |names|
  {
    var init := names[..|names| - 1];
    var last := names[|names| - 1];
    assert names == init + [last];
    if k < |Children(h, dir, init)| {
      ChildrenSound(h, dir, init, k);
    } else {
      assert Children(h, dir, names)[k] == dir + [last];
      assert (dir + [last])[..|dir|] == dir;
    }
  }

  /** Every admitted entry of the listing is a child. */
  lemma {:induction false} ChildrenComplete(h: Host, dir: Path, names: seq<string>, n: string)
    requires n in names && Admits(h, dir, n)
    ensures dir + [n] in Children(h, dir, names)
    decreases |names|
  {
    var init := names[..|names| - 1];
    var last := names[|names| - 1];
    assert names == init + [last];
    if n != last {
      ChildrenComplete(h, dir, init, n);
    }
  }

  /** Queue items for the given directories, all at one depth. */
  function Items(dirs: seq<Path>, depth: nat): (r: seq<QueueItem>)
    ensures |r| == |dirs|
    ensures forall k :: 0 <= k < |r| ==> r[k] == QueueItem(dirs[k], depth)
  {
    seq(|dirs|, k requires 0 <= k < |dirs| => QueueItem(dirs[k], depth))
  }

  /** What expanding `item` appends to the queue. */
  function ChildItems(h: Host, item: QueueItem): seq<QueueItem> {
    Items(Children(h, item.dir, ReadDir(h, item.dir)), item.depth + 1)
  }

  /** Work left for an item: an item deeper than the bound costs one step;
      any other costs one step plus the work of its children. */
  ghost function Potential(h: Host, dir: Path, depth: nat): nat
    decreases SEARCH_MAX_DEPTH + 1 - depth, 0
  {
    if depth > SEARCH_MAX_DEPTH then 1
    else 1 + SumPotential(h, Children(h, dir, ReadDir(h, dir)), depth + 1)
  }

  ghost function SumPotential(h: Host, dirs: seq<Path>, depth: nat): nat
    decreases SEARCH_MAX_DEPTH + 1 - depth, |dirs|
  {
    if dirs == [] then 0 else Potential(h, dirs[0], depth) + SumPotential(h, dirs[1..], depth)
  }

  ghost function QueuePotential(h: Host, queue: seq<QueueItem>): nat {
    if queue == [] then 0 else Potential(h, queue[0].dir, queue[0].depth) + QueuePotential(h, queue[1..])
  }

  lemma {:induction false} QueuePotentialConcat(h: Host, a: seq<QueueItem>, b: seq<QueueItem>)
    ensures QueuePotential(h, a + b) == QueuePotential(h, a) + QueuePotential(h, b)
    decreases |a|
  {
    if a == [] {
      assert a + b == b;
    } else {
      assert (a + b)[1..] == a[1..] + b;
      QueuePotentialConcat(h, a[1..], b);
    }
  }

  lemma {:induction false} QueuePotentialItems(h: Host, dirs: seq<Path>, depth: nat)
    ensures QueuePotential(h, Items(dirs, depth)) == SumPotential(h, dirs, depth)
    decreases |dirs|
  {
    if dirs != [] {
      assert Items(dirs, depth)[1..] == Items(dirs[1..], depth);
      QueuePotentialItems(h, dirs[1..], depth);
    }
  }

  /** Expanding the front item, or dropping it, lowers the potential. */
  lemma ExpandLowersPotential(h: Host, queue: seq<QueueItem>)
    requires queue != []
    ensures QueuePotential(h, queue[1..]) < QueuePotential(h, queue)
    ensures queue[0].depth <= SEARCH_MAX_DEPTH ==>
              QueuePotential(h, queue[1..] + ChildItems(h, queue[0])) < QueuePotential(h, queue)
  {
    var item := queue[0];
    if item.depth <= SEARCH_MAX_DEPTH {
      QueuePotentialConcat(h, queue[1..], ChildItems(h, item));
      QueuePotentialItems(h, Children(h, item.dir, ReadDir(h, item.dir)), item.depth + 1);
    }
  }

  /** The breadth-first search over a queue, as a function: take the front
      item, skip it when too deep, stop at its configuration, else append
      its child directories. */
  function SearchQueue(h: Host, queue: seq<QueueItem>): Option<Path>
    decreases QueuePotential(h, queue)
  {
    if queue == [] then None
    else
      var current := queue[0];
      ExpandLowersPotential(h, queue);
      if current.depth > SEARCH_MAX_DEPTH then SearchQueue(h, queue[1..])
      else
        match FindConfigInDir(h, current.dir)
        case Some(found) => Some(found)
        case None => SearchQueue(h, queue[1..] + ChildItems(h, current))
  }

  /** The answer of `findBmmConfig`. */
  function Locate(h: Host, root: Path): Option<Path> {
    if FileExists(h, PreferredHidden(root)) then Some(PreferredHidden(root))
    else if FileExists(h, PreferredPlain(root)) then Some(PreferredPlain(root))
    else SearchQueue(h, [QueueItem(root, 0)])
  }

  // ---- what the search explores ----

  /** `d` lies below `root` through a chain of enqueued directories. */
  ghost predicate ChainOk(h: Host, root: Path, d: Path) {
    IsPrefix(root, d) && forall i :: |root| <= i < |d| ==> Enqueued(h, d[..i], d[i])
  }

  /** The entry is listed by its parent and admitted. */
  predicate Enqueued(h: Host, dir: Path, name: string) {
    name in ReadDir(h, dir) && Admits(h, dir, name)
  }

  /** A directory the search may examine: reached through enqueued
      directories, at most `SEARCH_MAX_DEPTH` below the root. */
  ghost predicate Reachable(h: Host, root: Path, d: Path) {
    ChainOk(h, root, d) && |d| - |root| <= SEARCH_MAX_DEPTH
  }

  ghost predicate WellFormed(h: Host, root: Path, queue: seq<QueueItem>) {
    forall j :: 0 <= j < |queue| ==> ChainOk(h, root, queue[j].dir) && queue[j].depth == |queue[j].dir| - |root|
  }

  /** Breadth-first order: depths never decrease along the queue and span
      at most two consecutive values. */
  ghost predicate Ordered(queue: seq<QueueItem>) {
    && (forall j1, j2 :: 0 <= j1 <= j2 < |queue| ==> queue[j1].depth <= queue[j2].depth)
    && (queue != [] ==> queue[|queue| - 1].depth <= queue[0].depth + 1)
  }

  /** Every reachable directory holding a configuration still has an
      ancestor (or itself) in the queue. */
  ghost predicate Covers(h: Host, root: Path, queue: seq<QueueItem>) {
    forall d :: Reachable(h, root, d) && HasConfig(h, d) ==> exists j :: 0 <= j < |queue| && IsPrefix(queue[j].dir, d)
  }

  lemma ChildrenWellFormed(h: Host, root: Path, item: QueueItem)
    requires ChainOk(h, root, item.dir) && item.depth == |item.dir| - |root|
    ensures WellFormed(h, root, ChildItems(h, item))
  {
    var names := ReadDir(h, item.dir);
    var kids := Children(h, item.dir, names);
    forall j | 0 <= j < |kids|
      ensures ChainOk(h, root, kids[j]) && |kids[j]| == |item.dir| + 1
    {
      var c := kids[j];
      ChildrenSound(h, item.dir, names, j);
      assert c == item.dir + [c[|item.dir|]];
      forall i | |root| <= i < |c|
        ensures Enqueued(h, c[..i], c[i])
      {
        if i < |item.dir| {
          assert c[..i] == item.dir[..i] && c[i] == item.dir[i];
        } else {
          assert c[..i] == item.dir;
        }
      }
    }
  }

  lemma WellFormedConcat(h: Host, root: Path, a: seq<QueueItem>, b: seq<QueueItem>)
    requires WellFormed(h, root, a) && WellFormed(h, root, b)
    ensures WellFormed(h, root, a + b)
  {
    forall j | 0 <= j < |a + b|
      ensures ChainOk(h, root, (a + b)[j].dir) && (a + b)[j].depth == |(a + b)[j].dir| - |root|
    {
      if j < |a| { assert (a + b)[j] == a[j]; } else { assert (a + b)[j] == b[j - |a|]; }
    }
  }

  /** One step of the search keeps breadth-first order. */
  lemma ExpandKeepsOrder(h: Host, queue: seq<QueueItem>)
    requires queue != [] && Ordered(queue)
    ensures Ordered(queue[1..] + ChildItems(h, queue[0]))
  {
    var current := queue[0];
    var rest := queue[1..];
    var kids := ChildItems(h, current);
    var next := rest + kids;
    forall j | 0 <= j < |next|
      ensures current.depth <= next[j].depth <= current.depth + 1
      ensures j >= |rest| ==> next[j].depth == current.depth + 1
    {
      if j < |rest| { assert next[j] == queue[j + 1]; } else { assert next[j] == kids[j - |rest|]; }
    }
    forall j1, j2 | 0 <= j1 <= j2 < |rest|
      ensures next[j1].depth <= next[j2].depth
    {
      assert next[j1] == queue[j1 + 1] && next[j2] == queue[j2 + 1];
    }
  }

  /** A chain through `dir` that goes deeper passes through one of the
      children `dir` enqueues. */
  lemma ChildOnChain(h: Host, root: Path, dir: Path, d: Path)
    requires ChainOk(h, root, d) && IsPrefix(root, dir) && IsPrefix(dir, d) && dir != d
    ensures exists k :: 0 <= k < |Children(h, dir, ReadDir(h, dir))| && IsPrefix(Children(h, dir, ReadDir(h, dir))[k], d)
  {
    var names := ReadDir(h, dir);
    var dirs := Children(h, dir, names);
    assert |root| <= |dir| < |d|;
    var n := d[|dir|];
    assert d[..|dir|] == dir;
    assert Enqueued(h, dir, n);
    var c := dir + [n];
    assert c == d[..|dir| + 1];
    ChildrenComplete(h, dir, names, n);
  }

  /** One step of the search keeps every configuration covered: the
      expanded directory holds none, so a covered one lies strictly below it,
      under one of its enqueued children. */
  lemma ExpandKeepsCover(h: Host, root: Path, queue: seq<QueueItem>)
    requires queue != [] && !HasConfig(h, queue[0].dir)
    requires WellFormed(h, root, queue) && Covers(h, root, queue)
    ensures Covers(h, root, queue[1..] + ChildItems(h, queue[0]))
  {
    var next := queue[1..] + ChildItems(h, queue[0]);
    forall d | Reachable(h, root, d) && HasConfig(h, d)
      ensures exists j :: 0 <= j < |next| && IsPrefix(next[j].dir, d)
    {
      var j :| 0 <= j < |queue| && IsPrefix(queue[j].dir, d);
      if j > 0 {
        assert next[j - 1] == queue[j];
      } else {
        WellFormedFront(h, root, queue);
        CoveredByChild(h, root, queue[0], queue[1..], d);
      }
    }
  }

  /** A configuration below the expanded front directory, which holds none
      itself, lies below one of the children it enqueues. */
  lemma CoveredByChild(h: Host, root: Path, current: QueueItem, rest: seq<QueueItem>, d: Path)
    requires ChainOk(h, root, current.dir) && !HasConfig(h, current.dir)
    requires ChainOk(h, root, d) && HasConfig(h, d) && IsPrefix(current.dir, d)
    ensures exists j :: 0 <= j < |rest + ChildItems(h, current)| && IsPrefix((rest + ChildItems(h, current))[j].dir, d)
  {
    var dirs := Children(h, current.dir, ReadDir(h, current.dir));
    ConfigSetsApart(h, d, current.dir);
    ChildOnChain(h, root, current.dir, d);
    var k :| 0 <= k < |dirs| && IsPrefix(dirs[k], d);
    ChildWitness(h, current, rest, k, d);
  }

  /** The `k`th child, enqueued after `rest`, covers what it is a prefix of. */
  lemma ChildWitness(h: Host, current: QueueItem, rest: seq<QueueItem>, k: nat, d: Path)
    requires k < |Children(h, current.dir, ReadDir(h, current.dir))|
    requires IsPrefix(Children(h, current.dir, ReadDir(h, current.dir))[k], d)
    ensures exists j :: 0 <= j < |rest + ChildItems(h, current)| && IsPrefix((rest + ChildItems(h, current))[j].dir, d)
  {
    var dirs := Children(h, current.dir, ReadDir(h, current.dir));
    var next := rest + ChildItems(h, current);
    ItemAfter(rest, dirs, current.depth + 1, k);
    assert next[|rest| + k].dir == dirs[k];
  }

  lemma ConfigSetsApart(h: Host, a: Path, b: Path)
    requires HasConfig(h, a) && !HasConfig(h, b)
    ensures a != b
  {
  }

  /** The queue item for the `k`th directory appended after `rest`. */
  lemma ItemAfter(rest: seq<QueueItem>, dirs: seq<Path>, depth: nat, k: nat)
    requires k < |dirs|
    ensures |rest| + k < |rest + Items(dirs, depth)| && (rest + Items(dirs, depth))[|rest| + k].dir == dirs[k]
  {
  }

  /** A front item beyond the depth bound means every item is: then no
      reachable directory holds a configuration. */
  lemma TooDeepCoversNothing(h: Host, root: Path, queue: seq<QueueItem>)
    requires queue != [] && queue[0].depth > SEARCH_MAX_DEPTH
    requires WellFormed(h, root, queue) && Ordered(queue) && Covers(h, root, queue)
    ensures forall d :: Reachable(h, root, d) ==> !HasConfig(h, d)
  {
    forall d | Reachable(h, root, d)
      ensures !HasConfig(h, d)
    {
      if HasConfig(h, d) {
        assert false;
      }
    }
  }

  /** Dropping a front item that is too deep keeps the three invariants. */
  lemma SkipKeepsInvariants(h: Host, root: Path, queue: seq<QueueItem>)
    requires queue != [] && queue[0].depth > SEARCH_MAX_DEPTH
    requires WellFormed(h, root, queue) && Ordered(queue) && Covers(h, root, queue)
    ensures WellFormed(h, root, queue[1..]) && Ordered(queue[1..]) && Covers(h, root, queue[1..])
  {
    var rest := queue[1..];
    assert Ordered(rest) by {
      forall j | 0 <= j < |rest| ensures queue[0].depth <= rest[j].depth <= queue[0].depth + 1 {
        assert rest[j] == queue[j + 1];
      }
      forall j1, j2 | 0 <= j1 <= j2 < |rest| ensures rest[j1].depth <= rest[j2].depth {
        assert rest[j1] == queue[j1 + 1] && rest[j2] == queue[j2 + 1];
      }
    }
    TooDeepCoversNothing(h, root, queue);
  }

  /** Soundness, completeness and shallowest-first for the search from any
      queue that satisfies the invariants. */
  lemma {:induction false} SearchQueueCorrect(h: Host, root: Path, queue: seq<QueueItem>)
    requires WellFormed(h, root, queue) && Ordered(queue) && Covers(h, root, queue)
    ensures SearchQueue(h, queue).None? ==> forall d :: Reachable(h, root, d) ==> !HasConfig(h, d)
    ensures SearchQueue(h, queue).Some? ==>
              exists d :: Reachable(h, root, d) && FindConfigInDir(h, d) == SearchQueue(h, queue)
                       && forall e :: Reachable(h, root, e) && HasConfig(h, e) ==> |d| <= |e|
    decreases QueuePotential(h, queue)
  {
    if queue == [] {
      return;
    }
    var current := queue[0];
    ExpandLowersPotential(h, queue);
    SearchStep(h, queue);
    if current.depth > SEARCH_MAX_DEPTH {
      SkipKeepsInvariants(h, root, queue);
      SearchQueueCorrect(h, root, queue[1..]);
    } else if HasConfig(h, current.dir) {
      FrontIsShallowest(h, root, queue);
    } else {
      ExpandKeepsInvariants(h, root, queue);
      SearchQueueCorrect(h, root, queue[1..] + ChildItems(h, current));
    }
  }

  /** One step of the search, case by case. */
  lemma SearchStep(h: Host, queue: seq<QueueItem>)
    requires queue != []
    ensures queue[0].depth > SEARCH_MAX_DEPTH ==> SearchQueue(h, queue) == SearchQueue(h, queue[1..])
    ensures queue[0].depth <= SEARCH_MAX_DEPTH && HasConfig(h, queue[0].dir) ==>
              SearchQueue(h, queue) == FindConfigInDir(h, queue[0].dir)
    ensures queue[0].depth <= SEARCH_MAX_DEPTH && !HasConfig(h, queue[0].dir) ==>
              SearchQueue(h, queue) == SearchQueue(h, queue[1..] + ChildItems(h, queue[0]))
  {
  }

  /** A front item within the depth bound is reachable, and no reachable
      configuration is shallower than it. */
  lemma FrontIsShallowest(h: Host, root: Path, queue: seq<QueueItem>)
    requires queue != [] && queue[0].depth <= SEARCH_MAX_DEPTH
    requires WellFormed(h, root, queue) && Ordered(queue) && Covers(h, root, queue)
    ensures Reachable(h, root, queue[0].dir)
    ensures forall e :: Reachable(h, root, e) && HasConfig(h, e) ==> |queue[0].dir| <= |e|
  {
    var current := queue[0];
    assert ChainOk(h, root, current.dir);
    forall e | Reachable(h, root, e) && HasConfig(h, e)
      ensures |current.dir| <= |e|
    {
      var j :| 0 <= j < |queue| && IsPrefix(queue[j].dir, e);
      assert queue[0].depth <= queue[j].depth;
    }
  }

  /** Expanding a front item that holds no configuration keeps the three
      invariants. */
  lemma ExpandKeepsInvariants(h: Host, root: Path, queue: seq<QueueItem>)
    requires queue != [] && !HasConfig(h, queue[0].dir)
    requires WellFormed(h, root, queue) && Ordered(queue) && Covers(h, root, queue)
    ensures var next := queue[1..] + ChildItems(h, queue[0]);
            WellFormed(h, root, next) && Ordered(next) && Covers(h, root, next)
  {
    WellFormedFront(h, root, queue);
    ChildrenWellFormed(h, root, queue[0]);
    WellFormedConcat(h, root, queue[1..], ChildItems(h, queue[0]));
    ExpandKeepsOrder(h, queue);
    ExpandKeepsCover(h, root, queue);
  }

  /** The two fixed candidates take priority, hidden layout first. */
  lemma LocatePreferred(h: Host, root: Path)
    ensures FileExists(h, PreferredHidden(root)) ==> Locate(h, root) == Some(PreferredHidden(root))
    ensures !FileExists(h, PreferredHidden(root)) && FileExists(h, PreferredPlain(root)) ==>
              Locate(h, root) == Some(PreferredPlain(root))
  {
  }

  /** Without the fixed candidates, the search finds a configuration exactly
      when some reachable directory holds one, and the one it returns is as
      shallow as any. */
  lemma LocateSearch(h: Host, root: Path)
    requires !FileExists(h, PreferredHidden(root)) && !FileExists(h, PreferredPlain(root))
    ensures Locate(h, root).None? <==> forall d :: Reachable(h, root, d) ==> !HasConfig(h, d)
    ensures Locate(h, root).Some? ==>
              exists d :: Reachable(h, root, d) && FindConfigInDir(h, d) == Locate(h, root)
                       && forall e :: Reachable(h, root, e) && HasConfig(h, e) ==> |d| <= |e|
  {
    var q := [QueueItem(root, 0)];
    assert root[..|root|] == root;
    assert WellFormed(h, root, q);
    assert Covers(h, root, q) by {
      forall d | Reachable(h, root, d) && HasConfig(h, d)
        ensures IsPrefix(q[0].dir, d)
      {
      }
    }
    SearchQueueCorrect(h, root, q);
  }

  /** A located configuration exists and lies below the root. */
  lemma LocateBelowRoot(h: Host, root: Path)
    ensures Locate(h, root).Some? ==>
              FileExists(h, Locate(h, root).value) && IsPrefix(root, Locate(h, root).value)
  {
    var r := Locate(h, root);
    if FileExists(h, PreferredHidden(root)) {
      assert PreferredHidden(root)[..|root|] == root;
    } else if FileExists(h, PreferredPlain(root)) {
      assert PreferredPlain(root)[..|root|] == root;
    } else if r.Some? {
      LocateSearch(h, root);
      var d :| Reachable(h, root, d) && FindConfigInDir(h, d) == r;
      FoundBelowRoot(h, root, d);
    }
  }

  /** A configuration found in a reachable directory lies below the root. */
  lemma FoundBelowRoot(h: Host, root: Path, d: Path)
    requires Reachable(h, root, d) && HasConfig(h, d)
    ensures FileExists(h, FindConfigInDir(h, d).value) && IsPrefix(root, FindConfigInDir(h, d).value)
  {
    var found := FindConfigInDir(h, d).value;
    assert found[..|d|] == d;
    assert found[..|root|] == d[..|root|];
  }

  /** Whatever is returned exists. */
  lemma {:induction false} SearchQueueExists(h: Host, queue: seq<QueueItem>)
    ensures SearchQueue(h, queue).Some? ==> FileExists(h, SearchQueue(h, queue).value)
    decreases QueuePotential(h, queue)
  {
    if queue != [] {
      ExpandLowersPotential(h, queue);
      if queue[0].depth > SEARCH_MAX_DEPTH {
        SearchQueueExists(h, queue[1..]);
      } else if !HasConfig(h, queue[0].dir) {
        SearchQueueExists(h, queue[1..] + ChildItems(h, queue[0]));
      }
    }
  }

  /** The search never enters an ignored directory: every segment below the
      root of a reachable directory is admitted. */
  lemma ReachableAvoidsIgnored(h: Host, root: Path, d: Path)
    requires Reachable(h, root, d)
    ensures forall i :: |root| <= i < |d| ==> d[i] !in IGNORED_DIRS && DirectoryExists(h, d[..i + 1])
  {
    forall i | |root| <= i < |d|
      ensures d[i] !in IGNORED_DIRS && DirectoryExists(h, d[..i + 1])
    {
      assert Enqueued(h, d[..i], d[i]);
      assert d[..i + 1] == d[..i] + [d[i]];
    }
  }

  /** The listing loop of `findBmmConfig`: push every admitted entry of
      `current.dir`, one level deeper, in listing order. */
  method EnqueueChildren(h: Host, current: QueueItem, queue: seq<QueueItem>) returns (r: seq<QueueItem>)
    ensures r == queue + ChildItems(h, current)
  {
    var entries := ReadDir(h, current.dir);
    r := queue;
    for i := 0 to |entries|
      invariant r == queue + Items(Children(h, current.dir, entries[..i]), current.depth + 1)
    {
      var entry := entries[i];
      assert entries[..i + 1] == entries[..i] + [entry];
      assert entries[..i + 1][..i] == entries[..i];
      if DirectoryExists(h, current.dir + [entry]) && entry !in IGNORED_DIRS {
        r := r + [QueueItem(current.dir + [entry], current.depth + 1)];
      }
    }
    assert entries[..|entries|] == entries;
  }

  /** `findBmmConfig`: the two candidates, then a queue of directories
      processed front to back. The ghost `examined` lists the directories
      whose contents were looked at, in order. */
  method FindBmmConfig(h: Host, root: Path) returns (r: Option<Path>, ghost examined: seq<Path>)
    ensures r == Locate(h, root)
    ensures forall k :: 0 <= k < |examined| ==> Reachable(h, root, examined[k])
  {
    examined := [];
    var preferred := [PreferredHidden(root), PreferredPlain(root)];
    for i := 0 to |preferred|
      invariant forall k :: 0 <= k < i ==> !FileExists(h, preferred[k])
    {
      assert i == 1 ==> !FileExists(h, PreferredHidden(root));
      if FileExists(h, preferred[i]) {
        return Some(preferred[i]), examined;
      }
    }

    assert !FileExists(h, preferred[0]) && !FileExists(h, preferred[1]);
    var start := [QueueItem(root, 0)];
    assert root[..|root|] == root;
    assert WellFormed(h, root, start);
    r, examined := SearchBreadthFirst(h, root, start);
  }

  /** The queue of `findBmmConfig`, processed front to back; it starts
      with the root at depth 0. */
  method SearchBreadthFirst(h: Host, root: Path, start: seq<QueueItem>) returns (r: Option<Path>, ghost examined: seq<Path>)
    requires WellFormed(h, root, start)
    ensures r == SearchQueue(h, start)
    ensures forall k :: 0 <= k < |examined| ==> Reachable(h, root, examined[k])
  {
    examined := [];
    var queue := start;
    while |queue| > 0
      invariant SearchQueue(h, queue) == SearchQueue(h, start)
      invariant WellFormed(h, root, queue)
      invariant forall k :: 0 <= k < |examined| ==> Reachable(h, root, examined[k])
      decreases QueuePotential(h, queue)
    {
      ExpandLowersPotential(h, queue);
      WellFormedFront(h, root, queue);
      var current := queue[0];
      var rest := queue[1..];
      if current.depth > SEARCH_MAX_DEPTH {
        queue := rest;
        continue;
      }
      var configInDir := FindConfigInDir(h, current.dir);
      ReachableAppend(h, root, examined, current.dir);
      examined := examined + [current.dir];
      if configInDir.Some? {
        return configInDir, examined;
      }

      queue := EnqueueChildren(h, current, rest);
      ChildrenWellFormed(h, root, current);
      WellFormedConcat(h, root, rest, ChildItems(h, current));
    }
    return None, examined;
  }

  /** The front item of a well-formed queue is on a chain from the root at
      its own depth, and the rest of the queue stays well-formed. */
  lemma WellFormedFront(h: Host, root: Path, queue: seq<QueueItem>)
    requires queue != [] && WellFormed(h, root, queue)
    ensures ChainOk(h, root, queue[0].dir) && queue[0].depth == |queue[0].dir| - |root|
    ensures WellFormed(h, root, queue[1..])
  {
    forall j | 0 <= j < |queue| - 1
      ensures ChainOk(h, root, queue[1..][j].dir) && queue[1..][j].depth == |queue[1..][j].dir| - |root|
    {
      assert queue[1..][j] == queue[j + 1];
    }
  }

  lemma ReachableAppend(h: Host, root: Path, examined: seq<Path>, d: Path)
    requires forall k :: 0 <= k < |examined| ==> Reachable(h, root, examined[k])
    requires Reachable(h, root, d)
    ensures forall k :: 0 <= k < |examined| + 1 ==> Reachable(h, root, (examined + [d])[k])
  {
    forall k | 0 <= k < |examined| + 1 ensures Reachable(h, root, (examined + [d])[k]) {
      if k < |examined| {
        assert (examined + [d])[k] == examined[k];
      }
    }
  }
}
