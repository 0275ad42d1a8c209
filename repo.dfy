/** `parse_repo`: the line counts of one repository, per programming language. */
module Repo {
  import opened Wrappers
  import opened Aggregate
  import opened Catalog
  import opened GitText

  /** What git answers inside one repository: the stdout of `git ls-files` (None when it is
      not UTF-8) and, per path, the stdout of `git blame --line-porcelain` (None when it is
      not UTF-8). */
  datatype RepoView = RepoView(lsFiles: Option<string>, blame: string -> Option<string>)

  /** The catalog record for the file's extension, with its leading dot. */
  function LanguageOf(path: string, catalog: Catalog): (r: Option<Language>)
    ensures r.Some? <==> Extension(path).Some? && "." + Extension(path).value in catalog
    ensures r.Some? ==> r.value == catalog["." + Extension(path).value]
  {
    match Extension(path)
    case None => None
    case Some(extension) => Classify(catalog, "." + extension)
  }

  /** `lang` is the name of a Programming record of the catalog. */
  ghost predicate ProgrammingName(catalog: Catalog, lang: string) {
    exists ext :: ext in catalog && catalog[ext].kind == Programming && catalog[ext].name == lang
  }

  /** Every key of `m` is the name of a Programming record. */
  ghost predicate FromCatalog(m: LocMap, catalog: Catalog) {
    forall lang :: lang in m ==> ProgrammingName(catalog, lang)
  }

  /** The language and line count that one tracked file adds, if it adds anything. */
  function FileContribution(path: string, blame: Option<string>, usernames: seq<string>,
                            catalog: Catalog): (r: Option<(string, nat)>)
    ensures r.Some? ==> r.value.1 > 0 && ProgrammingName(catalog, r.value.0)
  {
    match blame
    case None => None
    case Some(text) =>
      var count := AuthorCount(text, usernames);
      match LanguageOf(path, catalog)
      case None => None
      case Some(lang) =>
        if lang.kind == Programming && count > 0 then
          assert catalog["." + Extension(path).value] == lang;
          Some((lang.name, count))
        else None
  }

  /** One step of the fold: add the file's contribution to `acc`. */
  function FileStep(acc: LocMap, path: string, blame: Option<string>, usernames: seq<string>,
                    catalog: Catalog): (r: LocMap)
    ensures acc.Keys <= r.Keys && |r.Keys| <= |acc.Keys| + 1
    ensures forall lang :: Count(acc, lang) <= Count(r, lang)
  {
    match FileContribution(path, blame, usernames, catalog)
    case None => acc
    case Some((lang, count)) => acc[lang := Count(acc, lang) + count]
  }

  /** The fold of `FileStep` over `paths`, from the left. */
  function Accumulate(acc: LocMap, paths: seq<string>, view: RepoView, usernames: seq<string>,
                      catalog: Catalog): (r: LocMap)
    ensures acc.Keys <= r.Keys && |r.Keys| <= |acc.Keys| + |paths|
    ensures forall lang :: Count(acc, lang) <= Count(r, lang)
    decreases |paths|
  {
    if paths == [] then acc
    else Accumulate(FileStep(acc, paths[0], view.blame(paths[0]), usernames, catalog),
                    paths[1..], view, usernames, catalog)
  }

  /** The value `parse_repo` returns. */
  function RepoScan(view: RepoView, usernames: seq<string>, catalog: Catalog): (r: Result<LocMap, Error>)
    ensures view.lsFiles.None? ==> r == Err(LsFilesNotUtf8)
    ensures view.lsFiles.Some? ==> r.Ok? && |r.value| <= |TrackedPaths(view.lsFiles.value)|
  {
    match view.lsFiles
    case None => Err(LsFilesNotUtf8)
    case Some(output) => Ok(Accumulate(map[], TrackedPaths(output), view, usernames, catalog))
  }

  // ---------------------------------------------------------------- properties

  /** A file leaves the mapping unchanged when its blame is undecodable, when it has no
      extension or an unknown one, when its language is not Programming, or when no line
      is attributed to the users. */
  lemma FileStepUnchanged(acc: LocMap, path: string, blame: Option<string>, usernames: seq<string>,
                          catalog: Catalog)
    requires || blame.None?
             || Extension(path).None?
             || "." + Extension(path).value !in catalog
             || catalog["." + Extension(path).value].kind != Programming
             || AuthorCount(blame.value, usernames) == 0
    ensures FileStep(acc, path, blame, usernames, catalog) == acc
  {
  }

  /** Otherwise the file's attributed lines are added to its language's entry. */
  lemma FileStepAdds(acc: LocMap, path: string, text: string, usernames: seq<string>,
                     catalog: Catalog)
    requires Extension(path).Some?
    requires var key := "." + Extension(path).value;
      key in catalog && catalog[key].kind == Programming && AuthorCount(text, usernames) > 0
    ensures var lang := catalog["." + Extension(path).value].name;
      FileStep(acc, path, Some(text), usernames, catalog)
        == acc[lang := Count(acc, lang) + AuthorCount(text, usernames)]
  {
    var language := catalog["." + Extension(path).value];
    assert LanguageOf(path, catalog) == Some(language);
    assert FileContribution(path, Some(text), usernames, catalog)
        == Some((language.name, AuthorCount(text, usernames)));
  }

  /** The fold keeps every count positive and every key a Programming language name. */
  lemma {:induction false} AccumulateKeeps(acc: LocMap, paths: seq<string>, view: RepoView,
                                           usernames: seq<string>, catalog: Catalog)
    requires Positive(acc) && FromCatalog(acc, catalog)
    ensures var m := Accumulate(acc, paths, view, usernames, catalog);
      Positive(m) && FromCatalog(m, catalog)
    decreases |paths|
  {
    if paths != [] {
      var next := FileStep(acc, paths[0], view.blame(paths[0]), usernames, catalog);
      assert Positive(next) && FromCatalog(next, catalog);
      AccumulateKeeps(next, paths[1..], view, usernames, catalog);
    }
  }

  /** Every entry `parse_repo` produces has a strictly positive count and names a
      Programming language of the catalog. */
  lemma RepoScanEntries(view: RepoView, usernames: seq<string>, catalog: Catalog)
    requires RepoScan(view, usernames, catalog).Ok?
    ensures var m := RepoScan(view, usernames, catalog).value;
      Positive(m) && FromCatalog(m, catalog)
  {
    AccumulateKeeps(map[], TrackedPaths(view.lsFiles.value), view, usernames, catalog);
  }

  /** The lines of `lang` in the files `paths`, added up file by file. */
  function LangTotal(paths: seq<string>, view: RepoView, usernames: seq<string>, catalog: Catalog,
                     lang: string): nat
    decreases |paths|
  {
    if paths == [] then 0
    else
      var here := match FileContribution(paths[0], view.blame(paths[0]), usernames, catalog)
        case Some((l, c)) => if l == lang then c else 0
        case None => 0;
      here + LangTotal(paths[1..], view, usernames, catalog, lang)
  }

  lemma {:induction false} AccumulateCounts(acc: LocMap, paths: seq<string>, view: RepoView,
                                            usernames: seq<string>, catalog: Catalog, lang: string)
    ensures Count(Accumulate(acc, paths, view, usernames, catalog), lang)
         == Count(acc, lang) + LangTotal(paths, view, usernames, catalog, lang)
    decreases |paths|
  {
    if paths != [] {
      var next := FileStep(acc, paths[0], view.blame(paths[0]), usernames, catalog);
      AccumulateCounts(next, paths[1..], view, usernames, catalog, lang);
    }
  }

  /** Whatever the order of the tracked files, each language's count in the result is the
      sum of the attributed lines of the files of that language; a language is present
      exactly when that sum is positive. */
  lemma RepoScanTotals(view: RepoView, usernames: seq<string>, catalog: Catalog, lang: string)
    requires view.lsFiles.Some?
    ensures var paths := TrackedPaths(view.lsFiles.value);
      var m := RepoScan(view, usernames, catalog).value;
      && Count(m, lang) == LangTotal(paths, view, usernames, catalog, lang)
      && (lang in m <==> LangTotal(paths, view, usernames, catalog, lang) > 0)
  {
    var paths := TrackedPaths(view.lsFiles.value);
    AccumulateCounts(map[], paths, view, usernames, catalog, lang);
    AccumulateKeeps(map[], paths, view, usernames, catalog);
  }

  /** A repository with no tracked file yields an empty mapping, not an error. */
  lemma RepoScanNoFiles(blame: string -> Option<string>, usernames: seq<string>, catalog: Catalog)
    ensures RepoScan(RepoView(Some(""), blame), usernames, catalog) == Ok(map[])
  {
    TrackedPathsEmpty();
  }

  /** Undecodable `ls-files` output is the only error of a repository scan. */
  lemma RepoScanFails(view: RepoView, usernames: seq<string>, catalog: Catalog)
    ensures RepoScan(view, usernames, catalog).Err? <==> view.lsFiles.None?
  {
  }

  // ---------------------------------------------------------------- the method

  /** One step of the fold: the first path's contribution, then the rest. */
  lemma AccumulateStep(acc: LocMap, paths: seq<string>, i: nat, view: RepoView,
                       usernames: seq<string>, catalog: Catalog)
    requires i < |paths|
    ensures Accumulate(acc, paths[i..], view, usernames, catalog)
         == Accumulate(FileStep(acc, paths[i], view.blame(paths[i]), usernames, catalog),
                       paths[i + 1..], view, usernames, catalog)
  {
    assert paths[i..][1..] == paths[i + 1..];
  }

  /** `parse_repo`, with the two git commands replaced by the repository's `RepoView`. */
  method ParseRepo(view: RepoView, usernames: seq<string>, catalog: Catalog)
    returns (r: Result<LocMap, Error>)
    ensures r == RepoScan(view, usernames, catalog)
  {
    if view.lsFiles.None? {
      return Err(LsFilesNotUtf8);
    }
    var splitted := Split(view.lsFiles.value, '\n');
    // the last element is always dropped
    splitted := splitted[..|splitted| - 1];
    var acc: LocMap := map[];
    var i := 0;
    while i < |splitted|
      invariant 0 <= i <= |splitted|
      invariant Accumulate(acc, splitted[i..], view, usernames, catalog)
             == Accumulate(map[], splitted, view, usernames, catalog)
    {
      AccumulateStep(acc, splitted, i, view, usernames, catalog);
      acc := ParseFile(acc, splitted[i], view.blame(splitted[i]), usernames, catalog);
      i := i + 1;
    }
    return Ok(acc);
  }

  /** The closure of the `try_fold` in `parse_repo` for one tracked path, given what
      `git blame` printed for it. */
  method ParseFile(acc: LocMap, path: string, blameOutput: Option<string>,
                   usernames: seq<string>, catalog: Catalog)
    returns (next: LocMap)
    ensures next == FileStep(acc, path, blameOutput, usernames, catalog)
  {
    next := acc;
    if blameOutput.Some? {
      var count := AuthorCount(blameOutput.value, usernames);
      var extension := Extension(path);
      if extension.Some? {
        var extensionWithDot := "." + extension.value;
        if extensionWithDot in catalog {
          var lang := catalog[extensionWithDot];
          if lang.kind == Programming && count > 0 {
            FileStepAdds(acc, path, blameOutput.value, usernames, catalog);
            if lang.name in next {
              next := next[lang.name := next[lang.name] + count];
            } else {
              next := next[lang.name := count];
            }
            return;
          }
        }
      }
    }
    FileStepUnchanged(acc, path, blameOutput, usernames, catalog);
  }
}
