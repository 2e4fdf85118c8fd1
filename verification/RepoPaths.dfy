// sc_repo_path_collector.cpp: which paths a repo path file lists, and which source files they hold.
module RepoPaths {

  // The lines of a repo path file, classified, trimmed and with the directory of the file in front.
  datatype Line = Skipped | Excluded(path: string) | Listed(path: string)

  datatype Entry = RepoPathFile(lines: seq<Line>) | SourceFile | Directory(items: seq<string>) | OtherFile

  type FileSystem = map<string, Entry>

  predicate IsRepoPathFile(fs: FileSystem, path: string) { path in fs && fs[path].RepoPathFile? }
  predicate IsSourceFile(fs: FileSystem, path: string) { path in fs && fs[path].SourceFile? }
  predicate IsDirectory(fs: FileSystem, path: string) { path in fs && fs[path].Directory? }

  // ---- Repo path files ----

  ghost predicate Names(fs: FileSystem, file: string, line: Line) {
    file in fs && fs[file].RepoPathFile? && line in fs[file].lines
  }

  ghost predicate IncludesFile(fs: FileSystem, file: string, other: string) {
    Names(fs, file, Listed(other)) && other in fs && fs[other].RepoPathFile?
  }

  ghost predicate IsChainOfFiles(fs: FileSystem, chain: seq<string>) {
    chain != [] && forall i: nat, k: nat :: k == i + 1 && k < |chain| ==> IncludesFile(fs, chain[i], chain[k])
  }

  // The file is `root`, or is included from it over other repo path files.
  ghost predicate Reaches(fs: FileSystem, root: string, file: string) {
    exists chain :: IsChainOfFiles(fs, chain) && chain[0] == root && chain[|chain| - 1] == file
  }

  // What a repo path file lists and excludes, itself or by inclusion.
  ghost predicate AllListed(fs: FileSystem, root: string, path: string) {
    && !(path in fs && fs[path].RepoPathFile?)
    && exists file :: Reaches(fs, root, file) && Names(fs, file, Listed(path))
  }

  ghost predicate AllExcluded(fs: FileSystem, root: string, path: string) {
    exists file :: Reaches(fs, root, file) && Names(fs, file, Excluded(path))
  }

  // Inclusion does not run in circles.
  ghost predicate Acyclic(fs: FileSystem, rank: map<string, nat>) {
    && (forall file <- fs :: file in rank)
    && forall file, other :: IncludesFile(fs, file, other) ==> file in fs && other in fs && rank[other] < rank[file]
  }

  lemma ReachesSelf(fs: FileSystem, root: string)
    ensures Reaches(fs, root, root)
  {
    assert IsChainOfFiles(fs, [root]);
  }

  lemma ReachesFurther(fs: FileSystem, root: string, other: string, file: string)
    requires IncludesFile(fs, root, other) && Reaches(fs, other, file)
    ensures Reaches(fs, root, file)
  {
    var chain: seq<string> :| IsChainOfFiles(fs, chain) && chain[0] == other && chain[|chain| - 1] == file;
    var longer := [root] + chain;
    forall i: nat, k: nat | k == i + 1 && k < |longer| ensures IncludesFile(fs, longer[i], longer[k]) {
      if i > 0 {
        assert longer[i] == chain[i - 1] && longer[k] == chain[i];
      }
    }
    assert IsChainOfFiles(fs, longer) && longer[0] == root && longer[|longer| - 1] == file;
  }

  lemma FirstStep(fs: FileSystem, root: string, file: string) returns (other: string)
    requires Reaches(fs, root, file) && file != root
    ensures IncludesFile(fs, root, other) && Reaches(fs, other, file)
  {
    var chain: seq<string> :| IsChainOfFiles(fs, chain) && chain[0] == root && chain[|chain| - 1] == file;
    var k := 1;
    assert IncludesFile(fs, chain[0], chain[k]);
    other := chain[1];
    var rest := chain[1..];
    forall i: nat, k: nat | k == i + 1 && k < |rest| ensures IncludesFile(fs, rest[i], rest[k]) {
      assert rest[i] == chain[i + 1] && rest[k] == chain[k + 1];
    }
    assert IsChainOfFiles(fs, rest) && rest[0] == other && rest[|rest| - 1] == file;
  }

  // What a line contributes: itself, or what the file it names reaches.
  ghost predicate LineLists(fs: FileSystem, line: Line, path: string) {
    line.Listed? && if IsRepoPathFile(fs, line.path) then AllListed(fs, line.path, path) else path == line.path
  }

  ghost predicate LineExcludes(fs: FileSystem, line: Line, path: string) {
    line == Excluded(path) || (line.Listed? && IsRepoPathFile(fs, line.path) && AllExcluded(fs, line.path, path))
  }

  ghost predicate ListedBy(fs: FileSystem, lines: seq<Line>, path: string) {
    exists line <- lines :: LineLists(fs, line, path)
  }

  ghost predicate ExcludedBy(fs: FileSystem, lines: seq<Line>, path: string) {
    exists line <- lines :: LineExcludes(fs, line, path)
  }

  lemma LinesGiveAll(fs: FileSystem, root: string, path: string)
    requires IsRepoPathFile(fs, root)
    ensures ListedBy(fs, fs[root].lines, path) <==> AllListed(fs, root, path)
    ensures ExcludedBy(fs, fs[root].lines, path) <==> AllExcluded(fs, root, path)
  {
    ReachesSelf(fs, root);
    if ListedBy(fs, fs[root].lines, path) {
      var line :| line in fs[root].lines && LineLists(fs, line, path);
      assert Names(fs, root, Listed(line.path));
      if IsRepoPathFile(fs, line.path) {
        var file :| Reaches(fs, line.path, file) && Names(fs, file, Listed(path));
        ReachesFurther(fs, root, line.path, file);
      }
    }
    if AllListed(fs, root, path) {
      var file :| Reaches(fs, root, file) && Names(fs, file, Listed(path));
      if file == root {
        assert LineLists(fs, Listed(path), path);
      } else {
        var other := FirstStep(fs, root, file);
        assert Listed(other) in fs[root].lines && LineLists(fs, Listed(other), path);
      }
    }
    if ExcludedBy(fs, fs[root].lines, path) {
      var line :| line in fs[root].lines && LineExcludes(fs, line, path);
      if line == Excluded(path) {
        assert Names(fs, root, Excluded(path));
      } else {
        assert Names(fs, root, Listed(line.path));
        var file :| Reaches(fs, line.path, file) && Names(fs, file, Excluded(path));
        ReachesFurther(fs, root, line.path, file);
      }
    }
    if AllExcluded(fs, root, path) {
      var file :| Reaches(fs, root, file) && Names(fs, file, Excluded(path));
      if file == root {
        assert LineExcludes(fs, Excluded(path), path);
      } else {
        var other := FirstStep(fs, root, file);
        assert Listed(other) in fs[root].lines && LineExcludes(fs, Listed(other), path);
      }
    }
  }

  // Both sets are passed by reference in the source. The paths excluded so far are taken out at the
  // end of every file, and again at the end of the files that include it.
  method ParseRepoPath(
      fs: FileSystem, repoPath: string, excluded: set<string>, check: set<string>, ghost rank: map<string, nat>)
    returns (ok: bool, excludedSources: set<string>, checkSources: set<string>)
    requires Acyclic(fs, rank)
    ensures ok <==> repoPath in fs && fs[repoPath].RepoPathFile?
    ensures !ok ==> excludedSources == excluded && checkSources == check
    ensures ok ==> forall p :: p in excludedSources <==> p in excluded || AllExcluded(fs, repoPath, p)
    ensures ok ==> forall p :: p in checkSources <==>
                               (p in check || AllListed(fs, repoPath, p)) && p !in excludedSources
    decreases if repoPath in rank then rank[repoPath] else 0
  {
    excludedSources, checkSources := excluded, check;
    if !IsRepoPathFile(fs, repoPath) {
      return false, excluded, check;
    }
    var lines := fs[repoPath].lines;
    var i := 0;
    while i < |lines|
      invariant 0 <= i <= |lines|
      invariant forall p :: p in excludedSources <==> p in excluded || ExcludedBy(fs, lines[..i], p)
      invariant forall p :: p in checkSources ==> p in check || ListedBy(fs, lines[..i], p)
      invariant forall p :: (p in check || ListedBy(fs, lines[..i], p)) && p !in excludedSources ==> p in checkSources
    {
      var line := lines[i];
      OneMoreLine(fs, lines, i);
      match line {
        case Skipped =>
        case Excluded(path) =>
          excludedSources := excludedSources + {path};
        case Listed(path) =>
          if IsRepoPathFile(fs, path) {
            assert Names(fs, repoPath, line) && IncludesFile(fs, repoPath, path);
            var parsed;
            parsed, excludedSources, checkSources := ParseRepoPath(fs, path, excludedSources, checkSources, rank);
          } else {
            checkSources := checkSources + {path};
          }
      }
      i := i + 1;
    }
    assert lines[..i] == lines;
    checkSources := checkSources - excludedSources;
    forall p
      ensures ListedBy(fs, lines, p) <==> AllListed(fs, repoPath, p)
      ensures ExcludedBy(fs, lines, p) <==> AllExcluded(fs, repoPath, p)
    {
      LinesGiveAll(fs, repoPath, p);
    }
    ok := true;
  }

  lemma OneMoreLine(fs: FileSystem, lines: seq<Line>, i: nat)
    requires i < |lines|
    ensures forall p :: ListedBy(fs, lines[..i + 1], p) <==> ListedBy(fs, lines[..i], p) || LineLists(fs, lines[i], p)
    ensures forall p ::
              ExcludedBy(fs, lines[..i + 1], p) <==> ExcludedBy(fs, lines[..i], p) || LineExcludes(fs, lines[i], p)
  {
    assert lines[..i + 1] == lines[..i] + [lines[i]];
    assert forall l :: l in lines[..i + 1] <==> l in lines[..i] || l == lines[i];
  }

  // The outcome is the same for every order of the lines of the files.
  lemma LineOrderDoesNotMatter(fs: FileSystem, other: FileSystem, root: string, path: string)
    requires fs.Keys == other.Keys
    requires forall f <- fs ::
               if fs[f].RepoPathFile? then
                 other[f].RepoPathFile? && forall line :: line in fs[f].lines <==> line in other[f].lines
               else other[f] == fs[f]
    ensures AllListed(fs, root, path) <==> AllListed(other, root, path)
    ensures AllExcluded(fs, root, path) <==> AllExcluded(other, root, path)
  {
    forall file ensures Reaches(fs, root, file) <==> Reaches(other, root, file) {
      if Reaches(fs, root, file) {
        var chain: seq<string> :| IsChainOfFiles(fs, chain) && chain[0] == root && chain[|chain| - 1] == file;
        assert IsChainOfFiles(other, chain);
      }
      if Reaches(other, root, file) {
        var chain: seq<string> :| IsChainOfFiles(other, chain) && chain[0] == root && chain[|chain| - 1] == file;
        assert IsChainOfFiles(fs, chain);
      }
    }
  }

  // ---- Source files ----

  ghost predicate Holds(fs: FileSystem, directory: string, item: string) {
    directory in fs && fs[directory].Directory? && item in fs[directory].items
  }

  // A way down from a path over directories, on which nothing is excluded.
  ghost predicate IsWayDown(fs: FileSystem, excluded: set<string>, way: seq<string>) {
    && way != [] && (forall p <- way :: p !in excluded)
    && forall i: nat, k: nat :: k == i + 1 && k < |way| ==> Holds(fs, way[i], way[k])
  }

  ghost predicate IsBuildSource(fs: FileSystem, excluded: set<string>, path: string, file: string) {
    && file in fs && fs[file].SourceFile?
    && exists way :: IsWayDown(fs, excluded, way) && way[0] == path && way[|way| - 1] == file
  }

  // Directories do not contain themselves.
  ghost predicate IsTree(fs: FileSystem, depth: map<string, nat>) {
    && (forall p <- fs :: p in depth)
    && forall directory, item :: Holds(fs, directory, item) && item in fs ==> depth[item] < depth[directory]
  }

  lemma SourceItself(fs: FileSystem, excluded: set<string>, path: string)
    requires path !in excluded && IsSourceFile(fs, path)
    ensures forall f :: IsBuildSource(fs, excluded, path, f) <==> f == path
  {
    assert IsWayDown(fs, excluded, [path]);
    forall f | IsBuildSource(fs, excluded, path, f) ensures f == path {
      var way: seq<string> :| IsWayDown(fs, excluded, way) && way[0] == path && way[|way| - 1] == f;
      var k := 1;
      assert |way| > 1 ==> Holds(fs, way[0], way[k]);
    }
  }

  lemma WayStarts(fs: FileSystem, excluded: set<string>, path: string, f: string)
    requires IsBuildSource(fs, excluded, path, f)
    ensures path !in excluded
    ensures path != f ==> exists item :: Holds(fs, path, item) && IsBuildSource(fs, excluded, item, f)
  {
    var way: seq<string> :| IsWayDown(fs, excluded, way) && way[0] == path && way[|way| - 1] == f;
    assert way[0] in way;
    if path != f {
      var k := 1;
      assert Holds(fs, way[0], way[k]);
      var rest := way[1..];
      forall i: nat, k: nat | k == i + 1 && k < |rest| ensures Holds(fs, rest[i], rest[k]) {
        assert rest[i] == way[i + 1] && rest[k] == way[k + 1];
      }
      assert IsWayDown(fs, excluded, rest) && rest[0] == way[1] && rest[|rest| - 1] == f;
    }
  }

  lemma WayLonger(fs: FileSystem, excluded: set<string>, path: string, item: string, f: string)
    requires path !in excluded && Holds(fs, path, item) && IsBuildSource(fs, excluded, item, f)
    ensures IsBuildSource(fs, excluded, path, f)
  {
    var way: seq<string> :| IsWayDown(fs, excluded, way) && way[0] == item && way[|way| - 1] == f;
    var longer := [path] + way;
    forall i: nat, k: nat | k == i + 1 && k < |longer| ensures Holds(fs, longer[i], longer[k]) {
      if i > 0 {
        assert longer[i] == way[i - 1] && longer[k] == way[i];
      }
    }
    assert IsWayDown(fs, excluded, longer) && longer[0] == path && longer[|longer| - 1] == f;
  }

  // False when it throws, because the path is neither excluded nor a source file nor a directory.
  method CollectBuildSourcesBelow(
      fs: FileSystem, path: string, excluded: set<string>, build: set<string>, ghost depth: map<string, nat>)
    returns (ok: bool, buildSources: set<string>)
    requires IsTree(fs, depth)
    ensures ok <==> path in excluded || (path in fs && (fs[path].SourceFile? || fs[path].Directory?))
    ensures forall f :: f in buildSources <==> f in build || (ok && IsBuildSource(fs, excluded, path, f))
    decreases if path in depth then depth[path] else 0
  {
    ok, buildSources := true, build;
    if path in excluded {
      forall f ensures !IsBuildSource(fs, excluded, path, f) {
        if IsBuildSource(fs, excluded, path, f) {
          WayStarts(fs, excluded, path, f);
        }
      }
      return;
    }
    if IsSourceFile(fs, path) {
      SourceItself(fs, excluded, path);
      return true, build + {path};
    }
    if !IsDirectory(fs, path) {
      return false, build;
    }
    var items := fs[path].items;
    var i := 0;
    while i < |items|
      invariant 0 <= i <= |items|
      invariant forall f :: f in buildSources <==>
                            f in build || exists k: nat :: k < i && IsBuildSource(fs, excluded, items[k], f)
    {
      var item := items[i];
      ghost var before := buildSources;
      assert Holds(fs, path, item);
      if item in excluded {
        NotBelow(fs, excluded, item);
      } else if IsSourceFile(fs, item) {
        SourceItself(fs, excluded, item);
        buildSources := buildSources + {item};
      } else if IsDirectory(fs, item) {
        var collected;
        collected, buildSources := CollectBuildSourcesBelow(fs, item, excluded, buildSources, depth);
      } else {
        NotBelow(fs, excluded, item);
      }
      assert forall f :: f in buildSources <==> f in before || IsBuildSource(fs, excluded, item, f);
      i := i + 1;
    }
    forall f ensures (exists k: nat :: k < |items| && IsBuildSource(fs, excluded, items[k], f)) <==>
                     IsBuildSource(fs, excluded, path, f)
    {
      if k: nat :| k < |items| && IsBuildSource(fs, excluded, items[k], f) {
        WayLonger(fs, excluded, path, items[k], f);
      }
      if IsBuildSource(fs, excluded, path, f) {
        WayStarts(fs, excluded, path, f);
        var item :| Holds(fs, path, item) && IsBuildSource(fs, excluded, item, f);
        var k :| 0 <= k < |items| && items[k] == item;
      }
    }
  }

  lemma NotBelow(fs: FileSystem, excluded: set<string>, item: string)
    requires item in excluded || (!IsSourceFile(fs, item) && !IsDirectory(fs, item))
    ensures forall f :: !IsBuildSource(fs, excluded, item, f)
  {
    forall f ensures !IsBuildSource(fs, excluded, item, f) {
      if IsBuildSource(fs, excluded, item, f) {
        WayStarts(fs, excluded, item, f);
      }
    }
  }

  // Below a directory, or below all the paths that repo path files listed.
  method CollectBuildSources(
      fs: FileSystem, path: string, excluded: set<string>, check: set<string>, ghost depth: map<string, nat>)
    returns (ok: bool, buildSources: set<string>)
    requires IsTree(fs, depth)
    ensures path in fs && fs[path].Directory? ==>
              ok && forall f :: f in buildSources <==> IsBuildSource(fs, excluded, path, f)
    ensures !(path in fs && fs[path].Directory?) ==>
              (ok <==> forall p <- check :: p in excluded || (p in fs && (fs[p].SourceFile? || fs[p].Directory?)))
    ensures !(path in fs && fs[path].Directory?) && ok ==>
              forall f :: f in buildSources <==> exists p <- check :: IsBuildSource(fs, excluded, p, f)
  {
    buildSources := {};
    ok := true;
    if IsDirectory(fs, path) {
      ok, buildSources := CollectBuildSourcesBelow(fs, path, excluded, buildSources, depth);
      return;
    }
    var left, done := check, {};
    while left != {}
      invariant left + done == check
      invariant forall p <- done :: p in excluded || (p in fs && (fs[p].SourceFile? || fs[p].Directory?))
      invariant forall f :: f in buildSources <==> exists p <- done :: IsBuildSource(fs, excluded, p, f)
      decreases left
    {
      var p :| p in left;
      left, done := left - {p}, done + {p};
      ghost var before := buildSources;
      ok, buildSources := CollectBuildSourcesBelow(fs, p, excluded, buildSources, depth);
      if !ok {
        return;
      }
      assert forall f :: f in buildSources <==> f in before || IsBuildSource(fs, excluded, p, f);
    }
    assert done == check;
    ok := true;
  }
}
