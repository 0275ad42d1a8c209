/** Which repositories a walk reaches, and why its result is the merge of their scans. */
module Discovery {
  import opened Wrappers
  import opened Aggregate
  import opened Repo
  import opened Walker

  // ---------------------------------------------------------------- reference definitions

  /** The repository roots in and below `dir`, with no depth bound, in the order the walk
      meets them: a directory with a `.git` child directory is a root, `.git` itself is
      never entered, and every other child directory is searched. */
  function AllRepos(dir: Entry, path: Path): seq<Path>
    decreases dir, 1
  {
    if dir.File? then [] else AllReposFrom(dir, 0, path)
  }

  function AllReposFrom(dir: Entry, i: nat, path: Path): seq<Path>
    requires dir.Dir?
    decreases dir, 0, |dir.children| - i
  {
    if i >= |dir.children| then []
    else
      var child := dir.children[i];
      var here :=
        if child.File? then []
        else if child.name == GitDir then [path]
        else AllRepos(child, path + [child.name]);
      here + AllReposFrom(dir, i + 1, path)
  }

  /** The roots whose path has at most `bound` names. */
  function Filter(roots: seq<Path>, bound: int): (r: seq<Path>)
    ensures forall p :: p in r <==> p in roots && |p| <= bound
    decreases |roots|
  {
    if roots == [] then []
    else (if |roots[0]| <= bound then [roots[0]] else []) + Filter(roots[1..], bound)
  }

  /** The longest root path a walk reaches, for a walk of the directory at `level` names
      below the scan root entered with `currentDepth`; None when nothing is pruned. */
  function Horizon(maxDepth: Option<nat>, currentDepth: Option<nat>, level: nat): Option<int> {
    if maxDepth.Some? && currentDepth.Some? then Some(level + maxDepth.value - currentDepth.value)
    else None
  }

  function Within(roots: seq<Path>, horizon: Option<int>): seq<Path> {
    match horizon
    case None => roots
    case Some(bound) => Filter(roots, bound)
  }

  /** Scanning `roots` one after the other and merging each result into `acc`; the first
      failing scan ends it. */
  function ScanFrom(roots: seq<Path>, env: Env, acc: Option<LocMap>): Result<Option<LocMap>, Error>
    decreases |roots|
  {
    if roots == [] then Ok(acc)
    else match RepoScan(env.git(roots[0]), env.usernames, env.catalog)
      case Err(e) => Err(e)
      case Ok(m) => ScanFrom(roots[1..], env, Merge(acc, Some(m)))
  }

  // ---------------------------------------------------------------- sequences of roots

  lemma {:induction false} FilterAppend(a: seq<Path>, b: seq<Path>, bound: int)
    ensures Filter(a + b, bound) == Filter(a, bound) + Filter(b, bound)
    decreases |a|
  {
    if a == [] {
      assert a + b == b;
    } else {
      assert (a + b)[0] == a[0];
      assert (a + b)[1..] == a[1..] + b;
      FilterAppend(a[1..], b, bound);
    }
  }

  lemma {:induction false} FilterNone(roots: seq<Path>, bound: int)
    requires forall p :: p in roots ==> |p| > bound
    ensures Filter(roots, bound) == []
    decreases |roots|
  {
    if roots != [] {
      assert roots[0] in roots;
      FilterNone(roots[1..], bound);
    }
  }

  lemma WithinAppend(a: seq<Path>, b: seq<Path>, horizon: Option<int>)
    ensures Within(a + b, horizon) == Within(a, horizon) + Within(b, horizon)
  {
    if horizon.Some? {
      FilterAppend(a, b, horizon.value);
    }
  }

  /** `p` extends `path` without passing through `.git`. */
  ghost predicate Below(p: Path, path: Path) {
    |p| >= |path| && p[..|path|] == path && GitDir !in p[|path|..]
  }

  lemma BelowStep(p: Path, path: Path, name: string)
    requires name != GitDir && Below(p, path + [name])
    ensures Below(p, path)
  {
    var sub := path + [name];
    assert p[..|path|] == sub[..|path|];
    assert p[|path|..] == [name] + p[|sub|..];
  }

  /** Every root found below `path` extends `path` and does not pass through `.git`. */
  lemma {:induction false} AllReposBelow(dir: Entry, path: Path)
    ensures forall p :: p in AllRepos(dir, path) ==> Below(p, path)
    decreases dir, 1
  {
    if dir.Dir? {
      AllReposFromBelow(dir, 0, path);
    }
  }

  lemma {:induction false} AllReposFromBelow(dir: Entry, i: nat, path: Path)
    requires dir.Dir?
    ensures forall p :: p in AllReposFrom(dir, i, path) ==> Below(p, path)
    decreases dir, 0, |dir.children| - i
  {
    if i < |dir.children| {
      var child := dir.children[i];
      var rest := AllReposFrom(dir, i + 1, path);
      AllReposFromBelow(dir, i + 1, path);
      if child.Dir? && child.name != GitDir {
        var sub := path + [child.name];
        var here := AllRepos(child, sub);
        assert AllReposFrom(dir, i, path) == here + rest;
        AllReposBelow(child, sub);
        forall p | p in here ensures Below(p, path) {
          BelowStep(p, path, child.name);
        }
      } else if child.Dir? {
        assert AllReposFrom(dir, i, path) == [path] + rest;
        assert Below(path, path) by {
          assert path[..|path|] == path && path[|path|..] == [];
        }
      } else {
        assert AllReposFrom(dir, i, path) == rest;
      }
    }
  }

  /** The merge into `acc` can be done first or last. */
  function Lift(acc: Option<LocMap>, r: Result<Option<LocMap>, Error>): Result<Option<LocMap>, Error> {
    match r
    case Err(e) => Err(e)
    case Ok(m) => Ok(Merge(acc, m))
  }

  lemma {:induction false} ScanFromShift(roots: seq<Path>, env: Env, acc: Option<LocMap>)
    ensures ScanFrom(roots, env, acc) == Lift(acc, ScanFrom(roots, env, None))
    decreases |roots|
  {
    if roots == [] {
      MergeIdentity(acc);
    } else {
      var scan := RepoScan(env.git(roots[0]), env.usernames, env.catalog);
      if scan.Ok? {
        var m := scan.value;
        ScanFromShift(roots[1..], env, Merge(acc, Some(m)));
        ScanFromShift(roots[1..], env, Some(m));
        MergeIdentity(Some(m));
        var rest := ScanFrom(roots[1..], env, None);
        if rest.Ok? {
          MergeAssociative(acc, Some(m), rest.value);
        }
      }
    }
  }

  lemma {:induction false} ScanFromAppend(a: seq<Path>, b: seq<Path>, env: Env, acc: Option<LocMap>)
    ensures ScanFrom(a + b, env, acc) ==
      match ScanFrom(a, env, acc)
      case Err(e) => Err(e)
      case Ok(m) => ScanFrom(b, env, m)
    decreases |a|
  {
    if a == [] {
      assert a + b == b;
    } else {
      assert (a + b)[0] == a[0];
      assert (a + b)[1..] == a[1..] + b;
      var scan := RepoScan(env.git(a[0]), env.usernames, env.catalog);
      if scan.Ok? {
        ScanFromAppend(a[1..], b, env, Merge(acc, Some(scan.value)));
      }
    }
  }

  // ---------------------------------------------------------------- the walk

  /** The walk's value is the merge of the scans of the roots it reaches: all roots below
      `dir`, minus those beyond the depth horizon; the first failing scan is its error. */
  lemma {:induction false} WalkIsScanOfRepos(dir: Entry, path: Path, env: Env,
                                             maxDepth: Option<nat>, depth: Option<nat>)
    requires dir.Dir?
    ensures Walk(dir, path, env, None, maxDepth, depth)
         == ScanFrom(Within(AllRepos(dir, path), Horizon(maxDepth, depth, |path|)), env, None)
    decreases dir, 1
  {
    var h := Horizon(maxDepth, depth, |path|);
    if Pruned(maxDepth, depth) {
      AllReposBelow(dir, path);
      FilterNone(AllRepos(dir, path), h.value);
    } else {
      var childDepth := ChildDepth(maxDepth, depth);
      assert Horizon(maxDepth, childDepth, |path| + 1) == h;
      WalkChildrenIsScan(dir, 0, path, env, maxDepth, childDepth, None);
      var inner := WalkChildren(dir, 0, path, env, maxDepth, childDepth, None);
      if inner.Ok? {
        MergeIdentity(inner.value);
      }
    }
  }

  lemma {:induction false} WalkChildrenIsScan(dir: Entry, i: nat, path: Path, env: Env,
                                              maxDepth: Option<nat>, depth: Option<nat>,
                                              inner: Option<LocMap>)
    requires dir.Dir?
    requires var h := Horizon(maxDepth, depth, |path| + 1); h.Some? ==> |path| <= h.value
    ensures WalkChildren(dir, i, path, env, maxDepth, depth, inner)
         == ScanFrom(Within(AllReposFrom(dir, i, path), Horizon(maxDepth, depth, |path| + 1)), env, inner)
    decreases dir, 0, |dir.children| - i, 1
  {
    if i < |dir.children| {
      var child := dir.children[i];
      if child.File? {
        WalkFileChildIsScan(dir, i, path, env, maxDepth, depth, inner);
      } else if child.name == GitDir {
        WalkGitChildIsScan(dir, i, path, env, maxDepth, depth, inner);
      } else {
        WalkSubdirectoryIsScan(dir, i, path, env, maxDepth, depth, inner);
      }
    }
  }

  lemma {:induction false} WalkFileChildIsScan(dir: Entry, i: nat, path: Path, env: Env,
                                               maxDepth: Option<nat>, depth: Option<nat>,
                                               inner: Option<LocMap>)
    requires dir.Dir? && i < |dir.children| && dir.children[i].File?
    requires var h := Horizon(maxDepth, depth, |path| + 1); h.Some? ==> |path| <= h.value
    ensures WalkChildren(dir, i, path, env, maxDepth, depth, inner)
         == ScanFrom(Within(AllReposFrom(dir, i, path), Horizon(maxDepth, depth, |path| + 1)), env, inner)
    decreases dir, 0, |dir.children| - i, 0
  {
    SkipFile(dir, i, path, env, maxDepth, depth, inner);
    WalkChildrenIsScan(dir, i + 1, path, env, maxDepth, depth, inner);
  }

  /** A file child is skipped by the walk and holds no root. */
  lemma SkipFile(dir: Entry, i: nat, path: Path, env: Env, maxDepth: Option<nat>,
                 depth: Option<nat>, inner: Option<LocMap>)
    requires dir.Dir? && i < |dir.children| && dir.children[i].File?
    ensures WalkChildren(dir, i, path, env, maxDepth, depth, inner)
         == WalkChildren(dir, i + 1, path, env, maxDepth, depth, inner)
    ensures AllReposFrom(dir, i, path) == AllReposFrom(dir, i + 1, path)
  {
  }

  lemma {:induction false} WalkGitChildIsScan(dir: Entry, i: nat, path: Path, env: Env,
                                              maxDepth: Option<nat>, depth: Option<nat>,
                                              inner: Option<LocMap>)
    requires dir.Dir? && i < |dir.children|
    requires dir.children[i].Dir? && dir.children[i].name == GitDir
    requires var h := Horizon(maxDepth, depth, |path| + 1); h.Some? ==> |path| <= h.value
    ensures WalkChildren(dir, i, path, env, maxDepth, depth, inner)
         == ScanFrom(Within(AllReposFrom(dir, i, path), Horizon(maxDepth, depth, |path| + 1)), env, inner)
    decreases dir, 0, |dir.children| - i, 0
  {
    var h := Horizon(maxDepth, depth, |path| + 1);
    ScanFromGitChild(dir, i, path, env, h, inner);
    var scan := RepoScan(env.git(path), env.usernames, env.catalog);
    if scan.Ok? {
      MergeCommutative(Some(scan.value), inner);
      WalkChildrenIsScan(dir, i + 1, path, env, maxDepth, depth, Merge(Some(scan.value), inner));
    }
  }

  lemma {:induction false} WalkSubdirectoryIsScan(dir: Entry, i: nat, path: Path, env: Env,
                                                  maxDepth: Option<nat>, depth: Option<nat>,
                                                  inner: Option<LocMap>)
    requires dir.Dir? && i < |dir.children|
    requires dir.children[i].Dir? && dir.children[i].name != GitDir
    requires var h := Horizon(maxDepth, depth, |path| + 1); h.Some? ==> |path| <= h.value
    ensures WalkChildren(dir, i, path, env, maxDepth, depth, inner)
         == ScanFrom(Within(AllReposFrom(dir, i, path), Horizon(maxDepth, depth, |path| + 1)), env, inner)
    decreases dir, 0, |dir.children| - i, 0
  {
    var child := dir.children[i];
    WalkIsScanOfRepos(child, path + [child.name], env, maxDepth, depth);
    var res := Walk(child, path + [child.name], env, None, maxDepth, depth);
    if res.Ok? {
      WalkChildrenIsScan(dir, i + 1, path, env, maxDepth, depth, Merge(inner, res.value));
    }
    CombineSubdirectory(dir, i, path, env, maxDepth, depth, inner);
  }

  /** The step of `WalkSubdirectoryIsScan` once the child and the later children are done. */
  lemma CombineSubdirectory(dir: Entry, i: nat, path: Path, env: Env,
                            maxDepth: Option<nat>, depth: Option<nat>, inner: Option<LocMap>)
    requires dir.Dir? && i < |dir.children|
    requires dir.children[i].Dir? && dir.children[i].name != GitDir
    requires var child := dir.children[i]; var h := Horizon(maxDepth, depth, |path| + 1);
      && Walk(child, path + [child.name], env, None, maxDepth, depth)
         == ScanFrom(Within(AllRepos(child, path + [child.name]), h), env, None)
      && (Walk(child, path + [child.name], env, None, maxDepth, depth).Ok? ==>
            var acc := Merge(inner, Walk(child, path + [child.name], env, None, maxDepth, depth).value);
            WalkChildren(dir, i + 1, path, env, maxDepth, depth, acc)
            == ScanFrom(Within(AllReposFrom(dir, i + 1, path), h), env, acc))
    ensures WalkChildren(dir, i, path, env, maxDepth, depth, inner)
         == ScanFrom(Within(AllReposFrom(dir, i, path), Horizon(maxDepth, depth, |path| + 1)), env, inner)
  {
    StepIntoSubdirectory(dir, i, path, env, maxDepth, depth, inner);
    ScanFromSubdirectory(dir, i, path, env, Horizon(maxDepth, depth, |path| + 1), inner);
  }

  /** One step of the loop of children at a child directory that is not `.git`. */
  lemma StepIntoSubdirectory(dir: Entry, i: nat, path: Path, env: Env,
                             maxDepth: Option<nat>, depth: Option<nat>, inner: Option<LocMap>)
    requires dir.Dir? && i < |dir.children|
    requires dir.children[i].Dir? && dir.children[i].name != GitDir
    ensures var child := dir.children[i];
      WalkChildren(dir, i, path, env, maxDepth, depth, inner) ==
      match Walk(child, path + [child.name], env, None, maxDepth, depth)
      case Err(e) => Err(e)
      case Ok(res) => WalkChildren(dir, i + 1, path, env, maxDepth, depth, Merge(inner, res))
  {
  }

  /** A `.git` child puts the directory itself next in line. */
  lemma ScanFromGitChild(dir: Entry, i: nat, path: Path, env: Env, h: Option<int>, inner: Option<LocMap>)
    requires dir.Dir? && i < |dir.children|
    requires dir.children[i].Dir? && dir.children[i].name == GitDir
    requires h.Some? ==> |path| <= h.value
    ensures ScanFrom(Within(AllReposFrom(dir, i, path), h), env, inner) ==
      match RepoScan(env.git(path), env.usernames, env.catalog)
      case Err(e) => Err(e)
      case Ok(m) => ScanFrom(Within(AllReposFrom(dir, i + 1, path), h), env, Merge(inner, Some(m)))
  {
    var rest := Within(AllReposFrom(dir, i + 1, path), h);
    WithinAppend([path], AllReposFrom(dir, i + 1, path), h);
    assert Within([path], h) == [path];
    var roots := [path] + rest;
    assert roots[0] == path && roots[1..] == rest;
  }

  /** Any other child directory puts its own roots next in line. */
  lemma ScanFromSubdirectory(dir: Entry, i: nat, path: Path, env: Env, h: Option<int>, inner: Option<LocMap>)
    requires dir.Dir? && i < |dir.children|
    requires dir.children[i].Dir? && dir.children[i].name != GitDir
    ensures var child := dir.children[i];
      ScanFrom(Within(AllReposFrom(dir, i, path), h), env, inner) ==
      match ScanFrom(Within(AllRepos(child, path + [child.name]), h), env, None)
      case Err(e) => Err(e)
      case Ok(res) => ScanFrom(Within(AllReposFrom(dir, i + 1, path), h), env, Merge(inner, res))
  {
    var child := dir.children[i];
    var found := Within(AllRepos(child, path + [child.name]), h);
    var rest := Within(AllReposFrom(dir, i + 1, path), h);
    WithinAppend(AllRepos(child, path + [child.name]), AllReposFrom(dir, i + 1, path), h);
    ScanFromAppend(found, rest, env, inner);
    ScanFromShift(found, env, inner);
  }

  // ---------------------------------------------------------------- from the scan root

  /** With no depth bound, `main`'s call merges the scans of every root below the scan root. */
  lemma UnboundedWalk(root: Entry, env: Env)
    requires root.Dir?
    ensures Walk(root, [], env, None, None, Some(1)) == ScanFrom(AllRepos(root, []), env, None)
  {
    WalkIsScanOfRepos(root, [], env, None, Some(1));
  }

  /** With `max_depth = Some(d)` and the root at depth 1, exactly the roots whose directory
      lies at depth at most `d` (fewer than `d` names below the scan root) are scanned. */
  lemma BoundedWalk(root: Entry, env: Env, d: nat)
    requires root.Dir?
    ensures Walk(root, [], env, None, Some(d), Some(1)) == ScanFrom(Filter(AllRepos(root, []), d - 1), env, None)
  {
    HorizonOf(d, 1, 0);
    WalkWithinHorizon(root, [], env, Some(d), Some(1), d - 1);
  }

  /** A walk whose horizon is `bound` names scans the roots within `bound` names. */
  lemma WalkWithinHorizon(dir: Entry, path: Path, env: Env, maxDepth: Option<nat>,
                          depth: Option<nat>, bound: int)
    requires dir.Dir? && Horizon(maxDepth, depth, |path|) == Some(bound)
    ensures Walk(dir, path, env, None, maxDepth, depth) == ScanFrom(Filter(AllRepos(dir, path), bound), env, None)
  {
    WalkIsScanOfRepos(dir, path, env, maxDepth, depth);
  }

  /** With both a bound and a depth, the horizon is present. */
  lemma HorizonOf(d: nat, k: nat, level: nat)
    ensures Horizon(Some(d), Some(k), level) == Some(level + d - k)
  {
  }

  /** `max_depth = Some(0)` prunes the scan root itself: nothing is scanned at all. */
  lemma DepthZeroPrunesRoot(root: Entry, env: Env)
    requires root.Dir?
    ensures Walk(root, [], env, None, Some(0), Some(1)) == Ok(None)
  {
  }

  /** A directory deeper than the bound yields no result, whatever the accumulator held. */
  lemma PrunedDirectory(dir: Entry, path: Path, env: Env, acc: Option<LocMap>, d: nat, k: nat)
    requires dir.Dir? && k > d
    ensures Walk(dir, path, env, acc, Some(d), Some(k)) == Ok(None)
  {
  }

  /** A non-directory scan root is an error. */
  lemma WalkOfFile(name: string, path: Path, env: Env, acc: Option<LocMap>,
                   maxDepth: Option<nat>, depth: Option<nat>)
    ensures Walk(File(name), path, env, acc, maxDepth, depth) == Err(NotADirectory)
  {
  }

  // ---------------------------------------------------------------- what a scan of roots gives

  /** The lines of `lang` over the scans of `roots`. */
  function RootsTotal(roots: seq<Path>, env: Env, lang: string): int
    decreases |roots|
  {
    if roots == [] then 0
    else
      var here := match RepoScan(env.git(roots[0]), env.usernames, env.catalog)
        case Ok(m) => Count(m, lang)
        case Err(_) => 0;
      here + RootsTotal(roots[1..], env, lang)
  }

  /** Every scan succeeds. */
  ghost predicate AllScansOk(roots: seq<Path>, env: Env) {
    forall i :: 0 <= i < |roots| ==> RepoScan(env.git(roots[i]), env.usernames, env.catalog).Ok?
  }

  /** Scanning roots fails exactly when one of the scans fails; otherwise the result is
      present iff something was present before or some root was scanned, and each language's
      count is what was there plus its lines in every scanned repository. */
  lemma {:induction false} ScanFromValue(roots: seq<Path>, env: Env, acc: Option<LocMap>, lang: string)
    ensures ScanFrom(roots, env, acc).Ok? <==> AllScansOk(roots, env)
    ensures ScanFrom(roots, env, acc).Ok? ==>
      var r := ScanFrom(roots, env, acc).value;
      && (r.Some? <==> acc.Some? || roots != [])
      && OptCount(r, lang) == OptCount(acc, lang) + RootsTotal(roots, env, lang)
    decreases |roots|
  {
    if roots != [] {
      var scan := RepoScan(env.git(roots[0]), env.usernames, env.catalog);
      if scan.Ok? {
        ScanFromValue(roots[1..], env, Merge(acc, Some(scan.value)), lang);
        AllScansOkStep(roots, env);
      } else {
        assert !AllScansOk(roots, env);
      }
    }
  }

  lemma AllScansOkStep(roots: seq<Path>, env: Env)
    requires roots != [] && RepoScan(env.git(roots[0]), env.usernames, env.catalog).Ok?
    ensures AllScansOk(roots, env) <==> AllScansOk(roots[1..], env)
  {
    if AllScansOk(roots[1..], env) {
      forall i | 1 <= i < |roots|
        ensures RepoScan(env.git(roots[i]), env.usernames, env.catalog).Ok?
      {
        assert roots[i] == roots[1..][i - 1];
      }
    }
    if AllScansOk(roots, env) {
      forall i | 0 <= i < |roots[1..]|
        ensures RepoScan(env.git(roots[1..][i]), env.usernames, env.catalog).Ok?
      {
        assert roots[1..][i] == roots[i + 1];
      }
    }
  }

  /** Every count the walk reports is positive and names a Programming language. */
  lemma {:induction false} ScanFromEntries(roots: seq<Path>, env: Env, acc: Option<LocMap>)
    requires acc.Some? ==> Positive(acc.value) && FromCatalog(acc.value, env.catalog)
    ensures ScanFrom(roots, env, acc).Ok? && ScanFrom(roots, env, acc).value.Some? ==>
      var m := ScanFrom(roots, env, acc).value.value;
      Positive(m) && FromCatalog(m, env.catalog)
    decreases |roots|
  {
    if roots != [] {
      var scan := RepoScan(env.git(roots[0]), env.usernames, env.catalog);
      if scan.Ok? {
        RepoScanEntries(env.git(roots[0]), env.usernames, env.catalog);
        MergeKeepsPositive(acc, Some(scan.value));
        var next := Merge(acc, Some(scan.value));
        assert FromCatalog(next.value, env.catalog) by {
          forall lang | lang in next.value ensures ProgrammingName(env.catalog, lang) {
            assert lang in OptKeys(acc) || lang in scan.value;
          }
        }
        ScanFromEntries(roots[1..], env, next);
      }
    }
  }

  // ---------------------------------------------------------------- which roots are found

  /** The `i`-th child of `dir` is a directory named `name`. */
  ghost predicate ChildDir(dir: Entry, i: int, name: string) {
    dir.Dir? && 0 <= i < |dir.children| && dir.children[i].Dir? && dir.children[i].name == name
  }

  /** `node` is the directory `rel` below `dir`, reached through directories not named `.git`. */
  ghost predicate Reaches(dir: Entry, rel: Path, node: Entry)
    decreases |rel|
  {
    if rel == [] then node == dir
    else
      && rel[0] != GitDir
      && exists i :: ChildDir(dir, i, rel[0]) && Reaches(dir.children[i], rel[1..], node)
  }

  /** A repository root: a directory with a `.git` child directory. */
  ghost predicate IsRepoRoot(node: Entry) {
    exists i :: ChildDir(node, i, GitDir)
  }

  /** Everything the walk lists is a repository root reached from `dir`. */
  lemma {:induction false} AllReposSound(dir: Entry, path: Path, p: Path)
    requires p in AllRepos(dir, path)
    ensures |p| >= |path| && p[..|path|] == path
    ensures exists node :: Reaches(dir, p[|path|..], node) && IsRepoRoot(node)
    decreases dir, 1
  {
    AllReposBelow(dir, path);
    AllReposFromSound(dir, 0, path, p);
  }

  lemma {:induction false} AllReposFromSound(dir: Entry, i: nat, path: Path, p: Path)
    requires dir.Dir? && p in AllReposFrom(dir, i, path)
    ensures |p| >= |path|
    ensures exists node :: Reaches(dir, p[|path|..], node) && IsRepoRoot(node)
    decreases dir, 0, |dir.children| - i
  {
    AllReposFromBelow(dir, i, path);
    var child := dir.children[i];
    var rest := AllReposFrom(dir, i + 1, path);
    if p in rest {
      AllReposFromSound(dir, i + 1, path, p);
    } else if child.name == GitDir {
      assert p == path;
      assert p[|path|..] == [];
      assert ChildDir(dir, i, GitDir);
      assert Reaches(dir, p[|path|..], dir);
    } else {
      var sub := path + [child.name];
      assert p in AllRepos(child, sub);
      AllReposSound(child, sub, p);
      var node :| Reaches(child, p[|sub|..], node) && IsRepoRoot(node);
      var rel := p[|path|..];
      assert p[..|sub|] == sub;
      assert rel[0] == p[|path|] == sub[|path|] == child.name;
      assert rel[1..] == p[|sub|..];
      assert ChildDir(dir, i, rel[0]);
      assert Reaches(dir, rel, node);
    }
  }

  /** A root listed by one child is listed from every earlier position on. */
  lemma {:induction false} AllReposFromIncludes(dir: Entry, i: nat, j: nat, path: Path, p: Path)
    requires dir.Dir? && i <= j < |dir.children|
    requires var child := dir.children[j];
      child.Dir? && (if child.name == GitDir then p == path else p in AllRepos(child, path + [child.name]))
    ensures p in AllReposFrom(dir, i, path)
    decreases j - i
  {
    if i < j {
      AllReposFromIncludes(dir, i + 1, j, path, p);
    }
  }

  /** Every repository root reached from `dir` is listed. */
  lemma {:induction false} AllReposComplete(dir: Entry, path: Path, rel: Path, node: Entry)
    requires Reaches(dir, rel, node) && IsRepoRoot(node)
    ensures path + rel in AllRepos(dir, path)
    decreases |rel|
  {
    if rel == [] {
      var j :| ChildDir(dir, j, GitDir);
      assert path + rel == path;
      AllReposFromIncludes(dir, 0, j, path, path);
    } else {
      var j :| ChildDir(dir, j, rel[0]) && Reaches(dir.children[j], rel[1..], node);
      var child := dir.children[j];
      AllReposComplete(child, path + [rel[0]], rel[1..], node);
      assert path + [rel[0]] + rel[1..] == path + rel;
      AllReposFromIncludes(dir, 0, j, path, path + rel);
    }
  }

  /** Sibling names are distinct, as in a real directory. */
  ghost predicate WellNamed(e: Entry)
    decreases e
  {
    e.Dir? ==>
      && (forall i, j :: 0 <= i < j < |e.children| ==> e.children[i].name != e.children[j].name)
      && (forall i :: 0 <= i < |e.children| ==> WellNamed(e.children[i]))
  }

  ghost predicate NoDuplicates(s: seq<Path>) {
    forall i, j :: 0 <= i < j < |s| ==> s[i] != s[j]
  }

  lemma NoDuplicatesAppend(a: seq<Path>, b: seq<Path>)
    requires NoDuplicates(a) && NoDuplicates(b)
    requires forall p :: p in a ==> p !in b
    ensures NoDuplicates(a + b)
  {
    forall i, j | 0 <= i < j < |a + b| ensures (a + b)[i] != (a + b)[j] {
      if i < |a| && j >= |a| {
        assert (a + b)[i] in a && (a + b)[j] == b[j - |a|];
      } else if i >= |a| {
        assert (a + b)[i] == b[i - |a|] && (a + b)[j] == b[j - |a|];
      }
    }
  }

  /** Where a root listed from the `i`-th child on came from: the directory itself, by a
      later `.git` child, or a later child directory whose name it extends `path` with. */
  lemma {:induction false} AllReposFromShape(dir: Entry, i: nat, path: Path, p: Path)
    requires dir.Dir? && p in AllReposFrom(dir, i, path)
    ensures || (p == path && exists j :: i <= j && ChildDir(dir, j, GitDir))
            || (|p| > |path| && p[..|path|] == path &&
                exists j :: i <= j && ChildDir(dir, j, p[|path|]) && p[|path|] != GitDir)
    decreases |dir.children| - i
  {
    var child := dir.children[i];
    if p in AllReposFrom(dir, i + 1, path) {
      AllReposFromShape(dir, i + 1, path, p);
    } else if child.name == GitDir {
      assert ChildDir(dir, i, GitDir);
    } else {
      var sub := path + [child.name];
      AllReposBelow(child, sub);
      assert p[..|sub|] == sub;
      assert p[|path|] == child.name;
      assert p[..|path|] == path;
      assert ChildDir(dir, i, p[|path|]);
    }
  }

  /** In a tree whose sibling names are distinct, no repository is listed twice, so none is
      scanned twice. */
  lemma {:induction false} AllReposOnce(dir: Entry, path: Path)
    requires WellNamed(dir)
    ensures NoDuplicates(AllRepos(dir, path))
    decreases dir, 1
  {
    if dir.Dir? {
      AllReposFromOnce(dir, 0, path);
    }
  }

  lemma {:induction false} AllReposFromOnce(dir: Entry, i: nat, path: Path)
    requires dir.Dir? && WellNamed(dir)
    ensures NoDuplicates(AllReposFrom(dir, i, path))
    decreases dir, 0, |dir.children| - i
  {
    if i < |dir.children| {
      var child := dir.children[i];
      var rest := AllReposFrom(dir, i + 1, path);
      AllReposFromOnce(dir, i + 1, path);
      if child.File? {
        assert AllReposFrom(dir, i, path) == [] + rest;
        NoDuplicatesAppend([], rest);
      } else if child.name == GitDir {
        forall p | p in [path] ensures p !in rest {
          if path in rest {
            AllReposFromShape(dir, i + 1, path, path);
          }
        }
        NoDuplicatesAppend([path], rest);
      } else {
        var sub := path + [child.name];
        var here := AllRepos(child, sub);
        AllReposOnce(child, sub);
        AllReposBelow(child, sub);
        forall p | p in here ensures p !in rest {
          assert p[..|sub|] == sub;
          assert |p| > |path| && p[|path|] == child.name;
          if p in rest {
            AllReposFromShape(dir, i + 1, path, p);
          }
        }
        NoDuplicatesAppend(here, rest);
      }
    }
  }
}
