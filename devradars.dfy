/** The flow of `main`: walk from the scan root at depth 1, then chart what came back. */
module DevRadars {
  import opened Wrappers
  import opened Aggregate
  import opened Walker
  import opened Discovery
  import opened Radar
  import opened Repo

  /** What `main` renders: nothing when no repository was reached, otherwise the radar
      data of the aggregate; the first error ends the run. */
  method Run(root: Entry, env: Env, depth: Option<nat>, topN: nat) returns (r: Result<Option<RadarData>, Error>)
    ensures var w := Walk(root, [], env, None, depth, Some(1));
      && (w.Err? ==> r == Err(w.error))
      && (w.Ok? && w.value.None? ==> r == Ok(None))
      && (w.Ok? && w.value.Some? ==>
            && (r.Err? <==> |w.value.value| == 0)
            && (r.Err? ==> r.error == NoDataToRender)
            && (r.Ok? ==> r.value.Some? && TopN(w.value.value, topN, r.value.value)))
  {
    var res := VisitDirs(root, [], env, None, depth, Some(1));
    if res.Err? {
      return Err(res.error);
    }
    if res.value.None? {
      return Ok(None);
    }
    var radar := Chart(res.value.value, topN);
    if radar.Err? {
      return Err(radar.error);
    }
    return Ok(Some(radar.value));
  }

  /** A tree without any `.git` directory renders nothing, whatever the depth. */
  lemma NoRepositoryRendersNothing(root: Entry, env: Env, depth: Option<nat>)
    requires root.Dir? && AllRepos(root, []) == []
    ensures Walk(root, [], env, None, depth, Some(1)) == Ok(None)
  {
    WalkIsScanOfRepos(root, [], env, depth, Some(1));
    FilterNone([], 0);
    var h := Horizon(depth, Some(1), 0);
    if h.Some? {
      FilterNone([], h.value);
    }
  }

  /** A scan root that is itself a repository without tracked files gives an empty
      aggregate, on which the chart fails. */
  lemma EmptyRepositoryGivesEmptyData(name: string, env: Env, depth: Option<nat>)
    requires env.git([]).lsFiles == Some("")
    requires depth != Some(0)
    ensures Walk(Dir(name, [Dir(GitDir, [])]), [], env, None, depth, Some(1)) == Ok(Some(map[]))
  {
    var root := Dir(name, [Dir(GitDir, [])]);
    RepoScanNoFiles(env.git([]).blame, env.usernames, env.catalog);
    assert env.git([]) == RepoView(Some(""), env.git([]).blame);
    assert RepoScan(env.git([]), env.usernames, env.catalog) == Ok(map[]);
    MergeIdentity(Some(map[]));
    var d := ChildDepth(depth, Some(1));
    assert WalkChildren(root, 1, [], env, depth, d, Some(map[])) == Ok(Some(map[]));
    assert WalkChildren(root, 0, [], env, depth, d, None) == Ok(Some(map[]));
    assert !Pruned(depth, Some(1));
  }
}
