# dev-radars, modelled in Dafny

dev-radars walks a directory tree and finds every git repository in it: a directory is a
repository when it has a `.git` child directory. In each repository it reads the tracked
files (`git ls-files`) and each file's `git blame --line-porcelain` output. It counts the
lines attributed to the given author names, and it classifies each file by its extension
against a catalog of languages. Only Programming languages are kept. It sums the counts
per language over all repositories, then draws a radar chart of the `top_n` languages
with the most lines.

The model covers that pipeline (all of it is in `src/main.rs`):

- `Aggregate` merges two optional per-language count maps (`combine_loc_by_lang`). It has
  a method with the source's loop, and a reference function with its algebra.
- `Catalog` builds the extension table from the language records (`LANGUAGES`). A later
  record overrides an earlier one for the same extension.
- `GitText` holds the text handling of `parse_repo`:
  - `split("\n")` followed by `pop()`;
  - the count of `author <name>` occurrences;
  - Rust's `Path::extension`.
- `Repo` scans one repository (`parse_repo`), with git replaced by a `RepoView`. A
  `RepoView` holds what `ls-files` printed and what `blame` prints for each path. The
  closure of its `try_fold` is the method `ParseFile`.
- `Walker` is the recursive walk (`visit_dirs`) over a directory tree `Entry`. Git is
  consulted per directory through `Env.git`. The loop over a directory's entries and the
  body of that loop are methods of their own, `VisitChildren` and `VisitChild`.
- `Discovery` gives an independent description of the walk: the list of repository roots
  the walk reaches, without entering `.git` and within the depth bound. It proves the walk
  equals the merge of those roots' scans. It also proves the list is exactly the reachable
  repository directories, each listed once.
- `Radar` is the data side of `chart`:
  - the largest count;
  - the counts sorted, reversed and truncated to `top_n`;
  - the `(lang, 0, max_loc)` indicators beside their counts.
- `DevRadars` is the flow of `main`: walk from depth 1, then chart when there is data.

Git, the filesystem, the JSON catalog, the command line and the renderer are outside the
model. They appear as parameters: `Env.git`, the `Entry` tree, the catalog `Env.catalog`
(any `map<string, Language>`), and `topN`/`depth`. Only `Catalog.BuildLanguages` takes
the `seq<Language>` of records, and it builds such a map.

Where the code and the program's stated intent differ, the model follows the code:

- `max_depth = Some(0)` prunes the scan root itself. The root enters with depth 1, and
  1 > 0 returns `Ok(None)` at once.
- A repository with no matching lines contributes `Some(map[])`, not `None`. When every
  repository found is like that, `chart` gets an empty map and `main` fails with "no data
  to render" (`DevRadars.EmptyRepositoryGivesEmptyData`, `DevRadars.Run`).
- `blame.matches("author <name>")` counts substring occurrences. A name that is a prefix
  of another author's name also counts that author's lines (`GitText.AuthorMarkerPrefix`,
  `GitText.PrefixNameCounts`).

## Model

| member | source | states |
|---|---|---|
| Aggregate.Merge | src/main.rs:58-76 | the merge is present iff either side is; its keys are the union of both sides' keys; each language's count is the sum of both sides' counts (absent counts 0) |
| Aggregate.CombineLocByLang | src/main.rs:58-76 | the loop of `entry().and_modify().or_insert()` over the second map computes exactly `Merge` |
| Aggregate.MergeIdentity | src/main.rs:72-74 | `None` is a unit on either side |
| Aggregate.MergeCommutative | src/main.rs:45-48 | the argument order does not matter, so a `.git` child merged as `(res, inner)` and a subdirectory merged as `(inner, res)` accumulate alike |
| Aggregate.MergeAssociative | src/main.rs:45-52 | merging is associative, so the grouping of child results into `inner_accumulator` and then into `accumulator` does not matter |
| Aggregate.MergeKeepsPositive | src/main.rs:63-71 | merging maps with positive counts gives a map with positive counts |
| Catalog.CatalogOf | src/main.rs:214-226 | the extension table of a record sequence: every key maps to a record of the sequence that lists that key; which keys appear and which record wins are `CatalogDomain` and `CatalogLastWins` |
| Catalog.Insert | src/main.rs:221-223 | inserting every extension of one record: those extensions map to the record, all other keys are unchanged |
| Catalog.BuildLanguages | src/main.rs:214-226 | the nested loops build exactly the table of the record sequence |
| Catalog.CatalogDomain | src/main.rs:219-224 | an extension is a key of the table iff some record lists it |
| Catalog.CatalogLastWins | src/main.rs:219-224 | an extension maps to the last record that lists it |
| Catalog.Classify | src/main.rs:146 | the lookup finds a record iff the dotted extension is a key, and then it is that key's record |
| GitText.Split | src/main.rs:97 | `split` yields at least one piece and no piece contains the separator |
| GitText.JoinSplit | src/main.rs:97 | joining the pieces of a split with the separator gives back the input |
| GitText.SplitJoin | src/main.rs:97 | splitting a join of separator-free pieces gives back the pieces |
| GitText.LinesJoin | src/main.rs:96-99 | newline-terminated output is the join of its lines followed by one empty piece |
| GitText.TrackedPaths | src/main.rs:97-99 | the paths of `split("\n")` with the last piece popped: no path holds a newline, and the paths followed by one newline-free piece join back to the `ls-files` output; `TrackedPathsDropLast` and `TrackedPathsOfLines` pin the value |
| GitText.TrackedPathsDropLast | src/main.rs:97-99 | the popped split of any text is all pieces but the last |
| GitText.TrackedPathsOfLines | src/main.rs:96-99 | for newline-terminated `ls-files` output the tracked paths are exactly its lines |
| GitText.TrackedPathsEmpty | src/main.rs:96-99 | empty `ls-files` output tracks no path |
| GitText.TrackedPathsUnterminated | src/main.rs:98-99 | without a trailing newline the pop discards the last real path (`a.rs\nb.rs` tracks only `a.rs`) |
| GitText.CountMatches | src/main.rs:135 | the non-overlapping occurrences fit in the text: their number times the pattern length is at most the text length |
| GitText.CountMatchesPositive | src/main.rs:135 | the count is positive iff the pattern occurs somewhere in the text |
| GitText.AuthorMarker | src/main.rs:135 | the pattern `author <name>` searched for in the blame text; a marker of a longer name contains the marker of its prefix at the same place, see `AuthorMarkerPrefix` |
| GitText.AuthorCount | src/main.rs:132-138 | the sum over the names of the occurrences of each name's marker; times the length of `author ` it is at most the number of names times the text length, and `AuthorCountPositive`, `AuthorCountAppend` and `AuthorCountDuplicate` state its value |
| GitText.AuthorMarkerPrefix | src/main.rs:135 | wherever the marker of `name + rest` occurs, the marker of `name` occurs too |
| GitText.PrefixNameCounts | src/main.rs:132-138 | blame text attributed to `name + rest` gives a positive count for the name `name` alone |
| GitText.AuthorCountAppend | src/main.rs:132-138 | the sum over a concatenation of name lists is the sum of the two sums |
| GitText.AuthorCountDuplicate | src/main.rs:132-138 | a name given twice counts its matches twice |
| GitText.AuthorCountPositive | src/main.rs:132-138 | the total is positive iff some `author <name>` marker occurs in the blame text |
| GitText.LastNormal | src/main.rs:140 | the component taken as file name is never empty, `.` or `..`, and holds no `/` |
| GitText.FileName | src/main.rs:140 | Rust's `Path::file_name` on `/`-separated paths; its value on a joined path is given by `FileNameOfComponents` |
| GitText.LastDot | src/main.rs:140 | the index found holds a dot with no dot after it; none is found only in a dot-free name |
| GitText.NameExtension | src/main.rs:140 | the extension of one file name: there is none iff the name is `..`, holds no dot, or has its only dot first; otherwise it is the dot-free tail after the last dot, with at least one character before that dot |
| GitText.Extension | src/main.rs:140 | Rust's `Path::extension`: an extension exists only for a path with a file name, and it holds neither a dot nor a `/`; `ExtensionSound` and `ExtensionComplete` state its value both ways |
| GitText.ExtensionSound | src/main.rs:140 | an extension is the dot-free tail after the last dot of the file name, with a non-empty stem before it |
| GitText.ExtensionComplete | src/main.rs:140 | a file named stem `.` tail, with a non-empty stem and a dot-free tail, has that tail as its extension |
| GitText.ExtensionNone | src/main.rs:140 | a name without a dot, or whose only dot is its first character, has no extension |
| GitText.FileNameOfComponents | src/main.rs:140 | the file name of a path joined from `/`-free components is its last component |
| GitText.ExtensionOfNestedFile | src/main.rs:140-144 | a file in nested directories has the text after its last dot as extension |
| GitText.ExtensionOfHiddenFile | src/main.rs:140 | a hidden file such as `.gitignore` has no extension, in any directory |
| Repo.LanguageOf | src/main.rs:140-146 | a path has a catalog record iff it has an extension whose dotted form is a key, and then the record is that key's |
| Repo.FileContribution | src/main.rs:128-151 | a file contributes only a positive count, under the name of a Programming record of the catalog |
| Repo.FileStepUnchanged | src/main.rs:128-156 | undecodable blame, no extension, unknown extension, non-Programming language or zero attributed lines leave the map unchanged |
| Repo.FileStepAdds | src/main.rs:146-151 | otherwise the attributed lines are added to the record's name, inserting it when absent |
| Repo.FileStep | src/main.rs:128-156 | one `try_fold` step: it adds at most one language, removes none, and lowers no count; `FileStepAdds` and `FileStepUnchanged` give its value |
| Repo.Accumulate | src/main.rs:102-158 | the `try_fold` over the tracked paths: at most one new language per path, no language removed, no count lowered; `AccumulateCounts` gives each count |
| Repo.AccumulateKeeps | src/main.rs:102-158 | the fold keeps every count positive and every key a Programming name |
| Repo.RepoScanEntries | src/main.rs:147-150 | every entry of a repository scan is positive and names a Programming language |
| Repo.AccumulateCounts | src/main.rs:102-158 | each language's final count is its initial count plus the attributed lines of its files |
| Repo.RepoScanTotals | src/main.rs:102-158 | a language's count is the per-file sum of its attributed lines, and it is present iff that sum is positive |
| Repo.RepoScanNoFiles | src/main.rs:96-99 | a repository with no tracked file scans to an empty map, not an error |
| Repo.RepoScanFails | src/main.rs:96 | a scan fails iff the `ls-files` output is not UTF-8 |
| Repo.RepoScan | src/main.rs:78-162 | `parse_repo`: it fails with the UTF-8 error iff `ls-files` output is not UTF-8, and otherwise it names at most as many languages as there are tracked paths; `RepoScanTotals` gives each count |
| Repo.ParseRepo | src/main.rs:78-162 | the pop and the `try_fold` loop compute exactly `RepoScan` |
| Repo.ParseFile | src/main.rs:104-156 | the closure of the `try_fold`, with its branches on undecodable blame, missing or unknown extension, language kind and zero count, computes exactly one `FileStep` |
| Walker.Walk | src/main.rs:12-56 | the value of `visit_dirs`: a file fails with "input is not a directory", and every other error is the UTF-8 error of a scan; `Discovery.WalkIsScanOfRepos` gives its value |
| Walker.WalkChildren | src/main.rs:32-52 | the loop over a directory's children from the `i`-th on: its only error is the UTF-8 error of a scan; `Discovery.WalkIsScanOfRepos` gives its value |
| Walker.VisitDirs | src/main.rs:12-56 | the recursive method with its mutable depth computes exactly `Walk` |
| Walker.VisitChildren | src/main.rs:31-51 | the `for` loop over the directory entries, from an absent inner accumulator, computes exactly `WalkChildren` from the first child |
| Walker.VisitChild | src/main.rs:33-50 | one iteration: a file is skipped, `.git` is scanned and any other directory is walked; the iteration either advances `WalkChildren` by one child with the merged accumulator or ends it with the same error |
| Discovery.WalkIsScanOfRepos | src/main.rs:12-56 | walking a directory gives the merge, in walk order, of the scans of the repository roots below it within the depth horizon; the first failing scan is the result |
| Discovery.UnboundedWalk | src/main.rs:275 | with no depth bound, `main`'s call scans every repository root below the scan root |
| Discovery.WalkWithinHorizon | src/main.rs:20-30 | a walk whose depth bound leaves a horizon of `bound` names scans exactly the roots at most `bound` names below the scan root |
| Discovery.BoundedWalk | src/main.rs:20-30 | with `max_depth = Some(d)`, exactly the roots fewer than `d` names below the scan root are scanned |
| Discovery.DepthZeroPrunesRoot | src/main.rs:20-23 | `max_depth = Some(0)` scans nothing and returns `Ok(None)` |
| Discovery.PrunedDirectory | src/main.rs:22-23 | a directory entered deeper than the bound returns `Ok(None)` whatever the accumulator |
| Discovery.WalkOfFile | src/main.rs:53-55 | walking a file fails with "input is not a directory" |
| Discovery.ScanFromValue | src/main.rs:43-52 | scanning a list of roots succeeds iff every scan succeeds; it is present iff there was an accumulator or a root; each count is the accumulator's plus the roots' totals |
| Discovery.ScanFromEntries | src/main.rs:43-52 | the counts of a successful scan of roots are positive and name Programming languages |
| Discovery.AllReposSound | src/main.rs:35-49 | every listed root extends the starting path and lies at a directory with a `.git` child reached without entering `.git` |
| Discovery.AllReposComplete | src/main.rs:35-49 | every directory with a `.git` child reachable without entering `.git` is listed |
| Discovery.AllReposOnce | src/main.rs:32-49 | in a tree whose siblings have distinct names no root is listed twice, so no repository is counted twice |
| Radar.Collect | src/main.rs:170-174 | the collected pairs list every entry of the map exactly once |
| Radar.MaxLoc | src/main.rs:164-168 | `max()` of a non-empty list is one of its counts and at least every count |
| Radar.ListingMax | src/main.rs:164-168 | the maximum of a listing is the largest count of the map |
| Radar.InsertByLoc | src/main.rs:175 | inserting into an ascending list keeps it ascending and adds exactly one element |
| Radar.SortByLoc | src/main.rs:175 | the sort by count is an ascending permutation of its input |
| Radar.SortByLocDistinct | src/main.rs:175 | sorting keeps the languages distinct |
| Radar.Reverse | src/main.rs:176 | the reversal has the same length, with element `i` taken from position `n - 1 - i` |
| Radar.RankedListing | src/main.rs:175-176 | the sorted and reversed pairs list the map exactly once, in non-increasing order of count |
| Radar.TopBeatsRest | src/main.rs:177 | after truncation, every kept count is at least the count of every language dropped |
| Radar.Project | src/main.rs:179-184 | each kept pair becomes the indicator `(lang, 0, max_loc)` with its count beside it |
| Radar.RankedPrefixIsTopN | src/main.rs:175-184 | the truncated projection holds the top `topN` languages |
| Radar.Chart | src/main.rs:164-184 | `chart` fails with "no data to render" iff the map is empty; otherwise it gives the smaller of `topN` and the number of languages, all distinct languages of the map; counts are non-increasing and equal the map's; each indicator spans 0 to the largest count; no dropped language beats a kept one |
| Radar.TopNShowsAll | src/main.rs:177 | with `topN` at least the number of languages, every language gets an indicator |
| DevRadars.Run | src/main.rs:275-282 | `main` propagates the walk's error and renders nothing for `Ok(None)`; otherwise it fails iff the aggregate is empty, and else charts the top `topN` of the aggregate |
| DevRadars.NoRepositoryRendersNothing | src/main.rs:275-278 | a tree with no repository renders nothing, whatever the depth |
| DevRadars.EmptyRepositoryGivesEmptyData | src/main.rs:275-279 | a scan root that is a repository without tracked files yields `Some(map[])`, on which `chart` fails |

## Left out

- Git commands (`sh -c`/`cmd /C`, `git ls-files`, `git blame`, and `git config` for the default user name) are an oracle, `Env.git` / `RepoView`. Their `expect` panics and the Windows branch are not modelled.
- Filesystem: `read_dir`, `is_dir` and `parent` are replaced by the `Entry` tree. The errors of `read_dir`/`entry?`, names that are not valid Unicode, and symlinks are not modelled. The scan root is the `Entry` passed in, and the paths of the oracle are component names from it.
- Extension text that is not valid UTF-8 (`ok_or("found None in Os string")`) cannot arise, since model strings are sequences of characters.
- Windows path separators are not modelled: `Path::extension` is modelled with `/` only.
- Loading the language catalog from its JSON asset with serde is not modelled. The records are a given `seq<Language>`.
- The `charming` chart object, the series name and area style, and the SVG rendering to `radar.svg` are not modelled. `Radar.Chart` returns the indicator triplets and the counts.
- `clap` argument parsing and `current_dir` are not modelled. The scan root, the names, `depth` and `top_n` are parameters.
- The `println!` logging is not modelled.
- Walker.VisitDirs: depths are unbounded numbers, so the `u8` overflow of `current_depth += 1` is not modelled. It can happen only with `max_depth = Some(255)`, at a directory of depth 255: with `max_depth = None` the depth is never incremented, and a smaller bound prunes before the depth reaches 255. The same holds for `top_n: u8`, which is any natural number here.
- Repo.ParseRepo: counts are unbounded integers; the `usize` to `i64` conversion and `i64` overflow of the sums are not modelled.
- Radar.Chart: the library's `sort_unstable_by_key` is represented by an insertion sort with the same contract (an ascending permutation). The in-place sort, reverse and truncate of the `Vec` are reassignments of a sequence variable. The order among languages with equal counts is unspecified in the source and is not fixed here; `TopN` states the selection up to ties.
- Radar.Collect: the iteration order of `HashMap` is unspecified, and the method picks keys in an arbitrary order.
