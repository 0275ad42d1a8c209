/** Text handling in `parse_repo`: splitting the `git ls-files` output, counting
    `author <name>` markers in blame output, and Rust's `Path::extension`. */
module GitText {
  import opened Wrappers

  // ---------------------------------------------------------------- splitting

  /** `s.split(sep)`: the pieces between separators; always at least one piece. */
  function Split(s: string, sep: char): (r: seq<string>)
    ensures |r| >= 1
    ensures forall i :: 0 <= i < |r| ==> sep !in r[i]
    decreases |s|
  {
    if s == [] then [""]
    else
      var rest := Split(s[1..], sep);
      if s[0] == sep then [""] + rest else [[s[0]] + rest[0]] + rest[1..]
  }

  /** The pieces glued back together with `sep` between them. */
  function Join(parts: seq<string>, sep: char): string
    requires |parts| >= 1
    decreases |parts|
  {
    if |parts| == 1 then parts[0] else parts[0] + [sep] + Join(parts[1..], sep)
  }

  /** Splitting loses nothing: joining the pieces gives the input back. */
  lemma {:induction false} JoinSplit(s: string, sep: char)
    ensures Join(Split(s, sep), sep) == s
    decreases |s|
  {
    if s != [] {
      JoinSplit(s[1..], sep);
      var rest := Split(s[1..], sep);
      if s[0] != sep {
        if |rest| > 1 {
          assert ([[s[0]] + rest[0]] + rest[1..])[1..] == rest[1..];
        }
      }
    }
  }

  /** Splitting is the inverse of joining pieces that hold no separator. */
  lemma {:induction false} SplitJoin(parts: seq<string>, sep: char)
    requires |parts| >= 1
    requires forall i :: 0 <= i < |parts| ==> sep !in parts[i]
    ensures Split(Join(parts, sep), sep) == parts
    decreases |parts|, |parts[0]|, 1
  {
    if parts[0] != [] {
      SplitJoinLongHead(parts, sep);
    } else if |parts| > 1 {
      SplitJoinEmptyHead(parts, sep);
    }
  }

  lemma {:induction false} SplitJoinLongHead(parts: seq<string>, sep: char)
    requires |parts| >= 1 && parts[0] != []
    requires forall i :: 0 <= i < |parts| ==> sep !in parts[i]
    ensures Split(Join(parts, sep), sep) == parts
    decreases |parts|, |parts[0]|, 0
  {
    var h := parts[0];
    var tl := [h[1..]] + parts[1..];
    forall i | 0 <= i < |tl| ensures sep !in tl[i] {
      if i > 0 {
        assert tl[i] == parts[i];
      }
    }
    SplitJoin(tl, sep);
    JoinHead(parts, sep);
    SplitCons(h[0], Join(tl, sep), sep);
    assert [h[0]] + h[1..] == h;
    assert [h] + parts[1..] == parts;
  }

  lemma {:induction false} SplitJoinEmptyHead(parts: seq<string>, sep: char)
    requires |parts| > 1 && parts[0] == []
    requires forall i :: 0 <= i < |parts| ==> sep !in parts[i]
    ensures Split(Join(parts, sep), sep) == parts
    decreases |parts|, |parts[0]|, 0
  {
    SplitJoin(parts[1..], sep);
    SplitCons(sep, Join(parts[1..], sep), sep);
    assert [""] + parts[1..] == parts;
  }

  /** The first piece of a split, one character at a time. */
  lemma SplitCons(c: char, s: string, sep: char)
    ensures c == sep ==> Split([c] + s, sep) == [""] + Split(s, sep)
    ensures c != sep ==> Split([c] + s, sep) == [[c] + Split(s, sep)[0]] + Split(s, sep)[1..]
  {
    assert ([c] + s)[1..] == s;
  }

  /** Joining pieces whose first piece is not empty begins with that piece's first
      character. */
  lemma JoinHead(parts: seq<string>, sep: char)
    requires |parts| >= 1 && parts[0] != []
    ensures Join(parts, sep) == [parts[0][0]] + Join([parts[0][1..]] + parts[1..], sep)
  {
    var tl := [parts[0][1..]] + parts[1..];
    assert tl[1..] == parts[1..];
  }

  /** The tracked paths: the output split on newlines, with the last piece popped. */
  function TrackedPaths(lsFiles: string): (r: seq<string>)
    ensures forall i :: 0 <= i < |r| ==> '\n' !in r[i]
    ensures exists last :: '\n' !in last && Join(r + [last], '\n') == lsFiles
  {
    var splitted := Split(lsFiles, '\n');
    JoinSplit(lsFiles, '\n');
    assert splitted[..|splitted| - 1] + [splitted[|splitted| - 1]] == splitted;
    splitted[..|splitted| - 1]
  }

  /** The output `l1\n l2\n ... ln\n`: every line followed by a newline. */
  function Lines(lines: seq<string>): string {
    if lines == [] then "" else lines[0] + "\n" + Lines(lines[1..])
  }

  lemma {:induction false} LinesJoin(lines: seq<string>)
    ensures Lines(lines) == Join(lines + [""], '\n')
  {
    if lines != [] {
      LinesJoin(lines[1..]);
      assert (lines + [""])[1..] == lines[1..] + [""];
    }
  }

  /** Whatever the output, the popped piece is its last one: the text after the final newline. */
  lemma TrackedPathsDropLast(parts: seq<string>)
    requires |parts| >= 1
    requires forall i :: 0 <= i < |parts| ==> '\n' !in parts[i]
    ensures TrackedPaths(Join(parts, '\n')) == parts[..|parts| - 1]
  {
    SplitJoin(parts, '\n');
  }

  /** For output in which every line ends with a newline, the paths are exactly the lines. */
  lemma TrackedPathsOfLines(lines: seq<string>)
    requires forall i :: 0 <= i < |lines| ==> '\n' !in lines[i]
    ensures TrackedPaths(Lines(lines)) == lines
  {
    var parts := lines + [""];
    assert forall i :: 0 <= i < |parts| ==> '\n' !in parts[i] by {
      forall i | 0 <= i < |parts| ensures '\n' !in parts[i] {
        if i < |lines| { assert parts[i] == lines[i]; }
      }
    }
    LinesJoin(lines);
    TrackedPathsDropLast(parts);
    assert parts[..|lines|] == lines;
  }

  /** Empty output lists no path. */
  lemma TrackedPathsEmpty()
    ensures TrackedPaths("") == []
  {
  }

  /** A last line that lacks its newline is dropped with the popped piece. */
  lemma TrackedPathsUnterminated()
    ensures TrackedPaths("a.rs\nb.rs") == ["a.rs"]
  {
    assert "a.rs\nb.rs" == Join(["a.rs", "b.rs"], '\n') by {
      assert Join(["b.rs"], '\n') == "b.rs";
    }
    TrackedPathsDropLast(["a.rs", "b.rs"]);
  }

  // ---------------------------------------------------------------- counting

  /** `pat` occurs in `text` at position `i`. */
  ghost predicate OccursAt(text: string, pat: string, i: int) {
    0 <= i && i + |pat| <= |text| && text[i..i + |pat|] == pat
  }

  /** `text.matches(pat).count()`: non-overlapping occurrences, searched left to right. */
  function CountMatches(text: string, pat: string): (n: nat)
    requires |pat| > 0
    ensures n * |pat| <= |text|
    decreases |text|
  {
    if |text| < |pat| then 0
    else if text[..|pat|] == pat then 1 + CountMatches(text[|pat|..], pat)
    else CountMatches(text[1..], pat)
  }

  /** The count is positive exactly when the pattern occurs somewhere. */
  lemma {:induction false} CountMatchesPositive(text: string, pat: string)
    requires |pat| > 0
    ensures CountMatches(text, pat) > 0 <==> exists i :: OccursAt(text, pat, i)
    decreases |text|
  {
    if |text| >= |pat| {
      if text[..|pat|] == pat {
        assert OccursAt(text, pat, 0);
      } else {
        CountMatchesPositive(text[1..], pat);
        if exists i :: OccursAt(text[1..], pat, i) {
          var i :| OccursAt(text[1..], pat, i);
          assert text[i + 1..i + 1 + |pat|] == text[1..][i..i + |pat|];
          assert OccursAt(text, pat, i + 1);
        }
        if exists i :: OccursAt(text, pat, i) {
          var i :| OccursAt(text, pat, i);
          assert i != 0;
          assert text[1..][i - 1..i - 1 + |pat|] == text[i..i + |pat|];
          assert OccursAt(text[1..], pat, i - 1);
        }
      }
    }
  }

  /** The marker that `git blame --line-porcelain` writes for a line of `name`. */
  function AuthorMarker(name: string): string {
    "author " + name
  }

  /** The per-file count: the sum over the user names of their marker occurrences. */
  function AuthorCount(blame: string, usernames: seq<string>): (n: nat)
    ensures n * |AuthorMarker("")| <= |usernames| * |blame|
    decreases |usernames|
  {
    if usernames == [] then 0
    else
      var marker := AuthorMarker(usernames[0]);
      var c := CountMatches(blame, marker);
      var rest := AuthorCount(blame, usernames[1..]);
      MulMonotone(c, |AuthorMarker("")|, |marker|);
      MulSucc(|usernames[1..]|, |blame|);
      c + rest
  }

  lemma MulMonotone(c: nat, a: nat, b: nat)
    requires a <= b
    ensures c * a <= c * b
  {
  }

  lemma MulSucc(k: nat, n: nat)
    ensures (k + 1) * n == n + k * n
  {
  }

  /** The count adds up over the names, so a name given twice counts twice. */
  lemma {:induction false} AuthorCountAppend(blame: string, xs: seq<string>, ys: seq<string>)
    ensures AuthorCount(blame, xs + ys) == AuthorCount(blame, xs) + AuthorCount(blame, ys)
    decreases |xs|
  {
    if xs == [] {
      assert xs + ys == ys;
    } else {
      assert (xs + ys)[0] == xs[0];
      assert (xs + ys)[1..] == xs[1..] + ys;
      AuthorCountAppend(blame, xs[1..], ys);
    }
  }

  lemma AuthorCountDuplicate(blame: string, usernames: seq<string>, name: string)
    ensures AuthorCount(blame, usernames + [name, name])
         == AuthorCount(blame, usernames) + 2 * CountMatches(blame, AuthorMarker(name))
  {
    AuthorCountAppend(blame, usernames, [name, name]);
    assert [name, name][1..] == [name];
    assert [name][1..] == [];
    assert AuthorCount(blame, [name]) == CountMatches(blame, AuthorMarker(name));
  }

  /** The count is positive exactly when some user's marker occurs in the blame text. */
  lemma {:induction false} AuthorCountPositive(blame: string, usernames: seq<string>)
    ensures AuthorCount(blame, usernames) > 0
        <==> exists k, i :: 0 <= k < |usernames| && OccursAt(blame, AuthorMarker(usernames[k]), i)
    decreases |usernames|
  {
    if usernames != [] {
      AuthorCountPositive(blame, usernames[1..]);
      CountMatchesPositive(blame, AuthorMarker(usernames[0]));
      if exists k, i :: 0 <= k < |usernames[1..]| && OccursAt(blame, AuthorMarker(usernames[1..][k]), i) {
        var k, i :| 0 <= k < |usernames[1..]| && OccursAt(blame, AuthorMarker(usernames[1..][k]), i);
        assert OccursAt(blame, AuthorMarker(usernames[k + 1]), i);
      }
      if exists k, i :: 0 <= k < |usernames| && OccursAt(blame, AuthorMarker(usernames[k]), i) {
        var k, i :| 0 <= k < |usernames| && OccursAt(blame, AuthorMarker(usernames[k]), i);
        if k > 0 {
          assert OccursAt(blame, AuthorMarker(usernames[1..][k - 1]), i);
        }
      }
    }
  }

  /** The marker of a name is a prefix of the marker of every longer name, so wherever
      `author alice` occurs, `author ali` occurs too. */
  lemma AuthorMarkerPrefix(blame: string, name: string, rest: string, i: int)
    requires OccursAt(blame, AuthorMarker(name + rest), i)
    ensures OccursAt(blame, AuthorMarker(name), i)
  {
    var long := AuthorMarker(name + rest);
    var short := AuthorMarker(name);
    assert long[..|short|] == short;
    assert blame[i..i + |short|] == blame[i..i + |long|][..|short|];
  }

  /** A user whose name is a prefix of another author's name is credited with that author's
      lines: one blame line of author `name + rest` gives the user `name` a positive count. */
  lemma PrefixNameCounts(name: string, rest: string, tail: string)
    ensures AuthorCount(AuthorMarker(name + rest) + tail, [name]) > 0
  {
    var blame := AuthorMarker(name + rest) + tail;
    assert blame[0..|AuthorMarker(name + rest)|] == AuthorMarker(name + rest);
    assert OccursAt(blame, AuthorMarker(name + rest), 0);
    AuthorMarkerPrefix(blame, name, rest, 0);
    AuthorCountPositive(blame, [name]);
  }

  // ---------------------------------------------------------------- extensions

  /** `Path::file_name` on a `/`-separated path: the last component, skipping empty and
      `.` components; none when that component is `..` or there is none. */
  function FileName(path: string): (r: Option<string>)
    ensures r.Some? ==> r.value != "" && r.value != "." && r.value != ".." && '/' !in r.value
  {
    LastNormal(Split(path, '/'))
  }

  function LastNormal(segments: seq<string>): (r: Option<string>)
    requires forall i :: 0 <= i < |segments| ==> '/' !in segments[i]
    ensures r.Some? ==> r.value != "" && r.value != "." && r.value != ".." && '/' !in r.value
    decreases |segments|
  {
    if segments == [] then None
    else
      var last := segments[|segments| - 1];
      if last == "" || last == "." then LastNormal(segments[..|segments| - 1])
      else if last == ".." then None
      else Some(last)
  }

  /** The index of the last `.` in `name`, if any. */
  function LastDot(name: string): (r: Option<nat>)
    ensures r.Some? ==> r.value < |name| && name[r.value] == '.' && '.' !in name[r.value + 1..]
    ensures r.None? ==> '.' !in name
    decreases |name|
  {
    if name == [] then None
    else if name[|name| - 1] == '.' then Some(|name| - 1)
    else
      var r := LastDot(name[..|name| - 1]);
      assert name == name[..|name| - 1] + [name[|name| - 1]];
      r
  }

  /** `rsplit_file_at_dot` followed by `before.and(after)`: the text after the final dot,
      unless the name is `..`, has no dot, or has its only dot in front. */
  function NameExtension(name: string): (r: Option<string>)
    ensures r.None? <==> name == ".." || '.' !in name || (name[0] == '.' && '.' !in name[1..])
    ensures r.Some? ==>
      var ext := r.value;
      && '.' !in ext && |ext| + 1 < |name|
      && name[|name| - |ext| - 1] == '.' && name[|name| - |ext|..] == ext
  {
    if name == ".." then None
    else match LastDot(name)
      case None => None
      case Some(i) => if i == 0 then None else Some(name[i + 1..])
  }

  /** `Path::extension`. */
  function Extension(path: string): (r: Option<string>)
    ensures r.Some? ==> FileName(path).Some?
    ensures r.Some? ==> '.' !in r.value && '/' !in r.value
  {
    match FileName(path)
    case None => None
    case Some(name) => NameExtension(name)
  }

  /** An extension is dot-free, and the file name is a non-empty stem, a dot and the extension. */
  lemma ExtensionSound(path: string)
    ensures Extension(path).Some? ==>
      FileName(path).Some? &&
      var name, ext := FileName(path).value, Extension(path).value;
      '.' !in ext && |ext| + 1 < |name| && name == name[..|name| - |ext| - 1] + "." + ext
  {
    if Extension(path).Some? {
      var name, ext := FileName(path).value, Extension(path).value;
      assert NameExtension(name) == Some(ext);
      var k := |name| - |ext| - 1;
      assert name == name[..k] + [name[k]] + name[k + 1..];
    }
  }

  /** Conversely, a file name made of a non-empty stem, a dot and a dot-free tail has that
      tail as its extension. */
  lemma ExtensionComplete(path: string, stem: string, ext: string)
    requires FileName(path) == Some(stem + "." + ext)
    requires stem != "" && '.' !in ext
    ensures Extension(path) == Some(ext)
  {
    var name := stem + "." + ext;
    var i := LastDot(name).value;
    assert name[|stem|] == '.';
    assert i == |stem|;
    assert name[i + 1..] == ext;
  }

  /** A file name without a dot, or with its only dot in front, has no extension. */
  lemma ExtensionNone(path: string)
    requires FileName(path).Some?
    requires var name := FileName(path).value;
      '.' !in name || (name[0] == '.' && '.' !in name[1..])
    ensures Extension(path).None?
  {
    var name := FileName(path).value;
    if LastDot(name).Some? {
      var i := LastDot(name).value;
      assert i == 0;
    }
  }

  /** The file name of a path given as its components is its last component. */
  lemma FileNameOfComponents(components: seq<string>)
    requires |components| >= 1
    requires forall i :: 0 <= i < |components| ==> '/' !in components[i]
    requires var last := components[|components| - 1]; last != "" && last != "." && last != ".."
    ensures FileName(Join(components, '/')) == Some(components[|components| - 1])
  {
    SplitJoin(components, '/');
    assert Split(Join(components, '/'), '/') == components;
    assert LastNormal(components) == Some(components[|components| - 1]);
  }

  /** The components of a nested path: directories, then the file name. */
  lemma NestedComponents(dirs: seq<string>, name: string)
    requires forall i :: 0 <= i < |dirs| ==> '/' !in dirs[i]
    requires '/' !in name
    ensures forall i :: 0 <= i < |dirs + [name]| ==> '/' !in (dirs + [name])[i]
    ensures (dirs + [name])[|dirs|] == name
  {
    var components := dirs + [name];
    forall i | 0 <= i < |components| ensures '/' !in components[i] {
      if i < |dirs| {
        assert components[i] == dirs[i];
      }
    }
  }

  /** `src/main.rs` and the like: a nested source file has the extension after its last dot. */
  lemma ExtensionOfNestedFile(dirs: seq<string>, stem: string, ext: string)
    requires forall i :: 0 <= i < |dirs| ==> '/' !in dirs[i]
    requires stem != "" && '/' !in stem && '/' !in ext && '.' !in ext
    requires stem + "." + ext != ".."
    ensures Extension(Join(dirs + [stem + "." + ext], '/')) == Some(ext)
  {
    var name := stem + "." + ext;
    var components := dirs + [name];
    assert |name| >= 2;
    NestedComponents(dirs, name);
    FileNameOfComponents(components);
    ExtensionComplete(Join(components, '/'), stem, ext);
  }

  /** `.gitignore` and the like: a hidden file whose only dot is in front has no extension,
      wherever it lies. */
  lemma ExtensionOfHiddenFile(dirs: seq<string>, rest: string)
    requires forall i :: 0 <= i < |dirs| ==> '/' !in dirs[i]
    requires rest != "" && '/' !in rest && '.' !in rest
    ensures Extension(Join(dirs + ["." + rest], '/')) == None
  {
    var components := dirs + ["." + rest];
    var name := "." + rest;
    assert name[1..] == rest;
    NestedComponents(dirs, name);
    FileNameOfComponents(components);
    ExtensionNone(Join(components, '/'));
  }
}
