/** `visit_dirs`: the recursive walk that finds repositories and merges their counts. */
module Walker {
  import opened Wrappers
  import opened Aggregate
  import opened Catalog
  import opened Repo

  /** A directory tree, each directory's children in the order `read_dir` yields them. */
  datatype Entry = File(name: string) | Dir(name: string, children: seq<Entry>)

  /** A directory's location: the names leading to it from the scan root (the root is []). */
  type Path = seq<string>

  /** What the scan consults: git in each directory, the user names, and the catalog. */
  datatype Env = Env(git: Path -> RepoView, usernames: seq<string>, catalog: Catalog)

  /** The name of the repository metadata directory. */
  const GitDir: string := ".git"

  /** The depth check of `visit_dirs`: with both a bound and a depth, a depth above the bound prunes. */
  predicate Pruned(maxDepth: Option<nat>, currentDepth: Option<nat>) {
    maxDepth.Some? && currentDepth.Some? && currentDepth.value > maxDepth.value
  }

  /** The depth handed to the children: incremented only when both are present. */
  function ChildDepth(maxDepth: Option<nat>, currentDepth: Option<nat>): Option<nat> {
    if maxDepth.Some? && currentDepth.Some? then Some(currentDepth.value + 1) else currentDepth
  }

  /** The value of `visit_dirs(dir, usernames, accumulator, max_depth, current_depth)`. */
  function Walk(dir: Entry, path: Path, env: Env, accumulator: Option<LocMap>,
                maxDepth: Option<nat>, currentDepth: Option<nat>): (r: Result<Option<LocMap>, Error>)
    ensures r.Err? ==> r.error == if dir.File? then NotADirectory else LsFilesNotUtf8
    decreases dir, 1
  {
    if dir.File? then Err(NotADirectory)
    else if Pruned(maxDepth, currentDepth) then Ok(None)
    else match WalkChildren(dir, 0, path, env, maxDepth, ChildDepth(maxDepth, currentDepth), None)
      case Err(e) => Err(e)
      case Ok(inner) => Ok(Merge(accumulator, inner))
  }

  /** The loop over the children of `dir` from the `i`-th on, `inner` holding what the
      earlier children gave; the first error ends it. */
  function WalkChildren(dir: Entry, i: nat, path: Path, env: Env, maxDepth: Option<nat>,
                        depth: Option<nat>, inner: Option<LocMap>): (r: Result<Option<LocMap>, Error>)
    requires dir.Dir?
    ensures r.Err? ==> r.error == LsFilesNotUtf8
    decreases dir, 0, |dir.children| - i
  {
    if i >= |dir.children| then Ok(inner)
    else
      var child := dir.children[i];
      if child.File? then WalkChildren(dir, i + 1, path, env, maxDepth, depth, inner)
      else if child.name == GitDir then
        match RepoScan(env.git(path), env.usernames, env.catalog)
        case Err(e) => Err(e)
        case Ok(res) => WalkChildren(dir, i + 1, path, env, maxDepth, depth, Merge(Some(res), inner))
      else
        match Walk(child, path + [child.name], env, None, maxDepth, depth)
        case Err(e) => Err(e)
        case Ok(res) => WalkChildren(dir, i + 1, path, env, maxDepth, depth, Merge(inner, res))
  }

  /** Entering a directory that is not pruned: the walk is the children's loop from the
      incremented depth, merged into the accumulator when it succeeds. */
  lemma WalkEntered(dir: Entry, path: Path, env: Env, accumulator: Option<LocMap>,
                    maxDepth: Option<nat>, currentDepth: Option<nat>)
    requires dir.Dir? && !Pruned(maxDepth, currentDepth)
    ensures var children := WalkChildren(dir, 0, path, env, maxDepth, ChildDepth(maxDepth, currentDepth), None);
      Walk(dir, path, env, accumulator, maxDepth, currentDepth)
        == if children.Err? then Err(children.error) else Ok(Merge(accumulator, children.value))
  {
  }

  /** One step of the loop past a plain file: nothing changes. */
  lemma WalkChildrenFile(dir: Entry, i: nat, path: Path, env: Env, maxDepth: Option<nat>,
                         depth: Option<nat>, inner: Option<LocMap>)
    requires dir.Dir? && i < |dir.children| && dir.children[i].File?
    ensures WalkChildren(dir, i, path, env, maxDepth, depth, inner)
         == WalkChildren(dir, i + 1, path, env, maxDepth, depth, inner)
  {
  }

  /** One step of the loop at the `.git` directory: its scan ends the loop or is merged in. */
  lemma WalkChildrenRepo(dir: Entry, i: nat, path: Path, env: Env, maxDepth: Option<nat>,
                         depth: Option<nat>, inner: Option<LocMap>, scan: Result<LocMap, Error>)
    requires dir.Dir? && i < |dir.children| && dir.children[i].Dir? && dir.children[i].name == GitDir
    requires scan == RepoScan(env.git(path), env.usernames, env.catalog)
    ensures scan.Err? ==> WalkChildren(dir, i, path, env, maxDepth, depth, inner) == Err(scan.error)
    ensures scan.Ok? ==> (WalkChildren(dir, i, path, env, maxDepth, depth, inner)
                          == WalkChildren(dir, i + 1, path, env, maxDepth, depth, Merge(Some(scan.value), inner)))
  {
  }

  /** One step of the loop at any other directory: its walk ends the loop or is merged in. */
  lemma WalkChildrenSubdirectory(dir: Entry, i: nat, path: Path, env: Env, maxDepth: Option<nat>,
                                 depth: Option<nat>, inner: Option<LocMap>,
                                 walk: Result<Option<LocMap>, Error>)
    requires dir.Dir? && i < |dir.children| && dir.children[i].Dir? && dir.children[i].name != GitDir
    requires walk == Walk(dir.children[i], path + [dir.children[i].name], env, None, maxDepth, depth)
    ensures walk.Err? ==> WalkChildren(dir, i, path, env, maxDepth, depth, inner) == Err(walk.error)
    ensures walk.Ok? ==> (WalkChildren(dir, i, path, env, maxDepth, depth, inner)
                          == WalkChildren(dir, i + 1, path, env, maxDepth, depth, Merge(inner, walk.value)))
  {
  }

  /** `visit_dirs`, with the filesystem replaced by the tree and git by `env`. */
  method VisitDirs(dir: Entry, path: Path, env: Env, accumulator: Option<LocMap>,
                   maxDepth: Option<nat>, currentDepth: Option<nat>)
    returns (r: Result<Option<LocMap>, Error>)
    ensures r == Walk(dir, path, env, accumulator, maxDepth, currentDepth)
    decreases dir, 2
  {
    if dir.File? {
      return Err(NotADirectory);
    }
    var depth := currentDepth;
    if maxDepth.Some? && depth.Some? {
      if depth.value > maxDepth.value {
        return Ok(None);
      }
      depth := Some(depth.value + 1);
    }
    assert depth == ChildDepth(maxDepth, currentDepth);
    WalkEntered(dir, path, env, accumulator, maxDepth, currentDepth);
    var inner := VisitChildren(dir, path, env, maxDepth, depth);
    if inner.Err? {
      return Err(inner.error);
    }
    var combined := CombineLocByLang(accumulator, inner.value);
    r := Ok(combined);
  }

  /** The loop of `visit_dirs` over the children of `dir`, from an absent inner
      accumulator; the first error ends it. */
  method VisitChildren(dir: Entry, path: Path, env: Env, maxDepth: Option<nat>, depth: Option<nat>)
    returns (r: Result<Option<LocMap>, Error>)
    requires dir.Dir?
    ensures r == WalkChildren(dir, 0, path, env, maxDepth, depth, None)
    decreases dir, 1
  {
    var innerAccumulator: Option<LocMap> := None;
    var i := 0;
    while i < |dir.children|
      invariant 0 <= i <= |dir.children|
      invariant WalkChildren(dir, i, path, env, maxDepth, depth, innerAccumulator)
             == WalkChildren(dir, 0, path, env, maxDepth, depth, None)
    {
      var step := VisitChild(dir, i, path, env, maxDepth, depth, innerAccumulator);
      if step.Err? {
        return Err(step.error);
      }
      innerAccumulator := step.value;
      i := i + 1;
    }
    return Ok(innerAccumulator);
  }

  /** The body of the loop of `visit_dirs` for its `i`-th child: a file is skipped, the
      `.git` directory is scanned, any other directory is walked, and what they give is
      merged into `inner`; an error ends the loop. */
  method VisitChild(dir: Entry, i: nat, path: Path, env: Env, maxDepth: Option<nat>,
                    depth: Option<nat>, inner: Option<LocMap>)
    returns (r: Result<Option<LocMap>, Error>)
    requires dir.Dir? && i < |dir.children|
    ensures r.Err? ==> WalkChildren(dir, i, path, env, maxDepth, depth, inner) == Err(r.error)
    ensures r.Ok? ==> (WalkChildren(dir, i, path, env, maxDepth, depth, inner)
                       == WalkChildren(dir, i + 1, path, env, maxDepth, depth, r.value))
    decreases dir, 0
  {
    var child := dir.children[i];
    if child.File? {
      WalkChildrenFile(dir, i, path, env, maxDepth, depth, inner);
      return Ok(inner);
    } else if child.name == GitDir {
      var res := ParseRepo(env.git(path), env.usernames, env.catalog);
      WalkChildrenRepo(dir, i, path, env, maxDepth, depth, inner, res);
      if res.Err? {
        return Err(res.error);
      }
      var merged := CombineLocByLang(Some(res.value), inner);
      return Ok(merged);
    } else {
      var res := VisitDirs(child, path + [child.name], env, None, maxDepth, depth);
      WalkChildrenSubdirectory(dir, i, path, env, maxDepth, depth, inner, res);
      if res.Err? {
        return Err(res.error);
      }
      var merged := CombineLocByLang(inner, res.value);
      return Ok(merged);
    }
  }
}
