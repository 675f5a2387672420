/** Poetry projects in a file snapshot: grouping the files by directory,
    finding the directories that hold exactly a `pyproject.toml` and a
    `poetry.lock`, and turning each such pair into a scan result with a
    dependency-graph fact and a tested-files fact. */
module Poetry {
  import opened Wrappers
  import Paths

  const ManifestName: string := "pyproject.toml"
  const LockName: string := "poetry.lock"

  /** The fixed `shouldIncludeDevDependencies` policy of this integration. */
  const IncludeDevDependencies: bool := false

  /** A path-to-content mapping; `paths` lists its keys in the order in which
      `Object.keys` visits them. */
  datatype FilePathToContent = FilePathToContent(paths: seq<string>, content: map<string, string>)

  /** What every JavaScript object satisfies: each key once, and `paths` and
      `content` have the same keys. */
  ghost predicate ValidSnapshot(s: FilePathToContent)
  {
    && (forall i, j :: 0 <= i < j < |s.paths| ==> s.paths[i] != s.paths[j])
    && (forall p :: p in s.content <==> p in s.paths)
  }

  datatype ManifestLockPathPair = ManifestLockPathPair(manifest: string, lock: string)

  /** The only part of a dependency graph this core reads. */
  datatype PkgManager = PkgManager(name: string)
  datatype DepGraph = DepGraph(pkgManager: PkgManager)

  datatype Fact = DepGraphFact(graph: DepGraph) | TestedFilesFact(files: seq<string>)

  /** The `identity` of a scan result; `kind` is its `type` field. */
  datatype Identity = Identity(kind: string, targetFile: string)

  datatype ScanResult = ScanResult(facts: seq<Fact>, identity: Identity)

  /** A dictionary from directory to the file names in it; `dirs` lists its
      keys in creation order. `Object.keys` visits them in that order unless
      some key is an array index (see `AbsoluteDirsAreNotIndices`). */
  datatype Grouping = Grouping(dirs: seq<string>, names: map<string, seq<string>>)

  // ---------------------------------------------------------------------------
  // Grouping by directory

  /** Extending a prefix of `s` by one element. */
  lemma TakeOneMore<T>(s: seq<T>, i: nat)
    requires i < |s|
    ensures s[..i + 1] == s[..i] + [s[i]]
  {
  }

  /** The distinct directories of `paths`, in order of first appearance. */
  function Dirs(paths: seq<string>): seq<string>
  {
    if paths == [] then []
    else
      var prev := Dirs(paths[..|paths| - 1]);
      var d := Paths.Dirname(paths[|paths| - 1]);
      if d in prev then prev else prev + [d]
  }

  /** The base names of the paths that lie in directory `d`, in path order. */
  function NamesIn(paths: seq<string>, d: string): seq<string>
  {
    if paths == [] then []
    else
      var p := paths[|paths| - 1];
      NamesIn(paths[..|paths| - 1], d) + (if Paths.Dirname(p) == d then [Paths.Basename(p)] else [])
  }

  lemma DirsSnoc(paths: seq<string>, p: string)
    ensures Dirs(paths + [p]) == if Paths.Dirname(p) in Dirs(paths) then Dirs(paths) else Dirs(paths) + [Paths.Dirname(p)]
  {
    assert (paths + [p])[..|paths|] == paths;
  }

  lemma NamesInSnoc(paths: seq<string>, p: string, d: string)
    ensures NamesIn(paths + [p], d) == NamesIn(paths, d) + (if Paths.Dirname(p) == d then [Paths.Basename(p)] else [])
  {
    assert (paths + [p])[..|paths|] == paths;
  }

  /** A directory is listed iff some path lies in it. */
  lemma {:induction false} DirsMembers(paths: seq<string>, d: string)
    ensures d in Dirs(paths) <==> exists i :: 0 <= i < |paths| && Paths.Dirname(paths[i]) == d
  {
    if paths != [] {
      var init := paths[..|paths| - 1];
      DirsMembers(init, d);
      DirsSnoc(init, paths[|paths| - 1]);
      assert init + [paths[|paths| - 1]] == paths;
      if exists i :: 0 <= i < |paths| && Paths.Dirname(paths[i]) == d {
        var i :| 0 <= i < |paths| && Paths.Dirname(paths[i]) == d;
        if i < |init| {
          assert Paths.Dirname(init[i]) == d;
        }
      }
    }
  }

  /** Each directory is listed once. */
  lemma {:induction false} DirsDistinct(paths: seq<string>)
    ensures forall i, j :: 0 <= i < j < |Dirs(paths)| ==> Dirs(paths)[i] != Dirs(paths)[j]
  {
    if paths != [] {
      var init := paths[..|paths| - 1];
      DirsDistinct(init);
      DirsSnoc(init, paths[|paths| - 1]);
      assert init + [paths[|paths| - 1]] == paths;
    }
  }

  /** A directory has a non-empty list of names iff it is listed: no key maps
      to an empty list, and no directory without files is a key. */
  lemma {:induction false} NamesInNonEmpty(paths: seq<string>, d: string)
    ensures |NamesIn(paths, d)| > 0 <==> d in Dirs(paths)
  {
    if paths != [] {
      var init, p := paths[..|paths| - 1], paths[|paths| - 1];
      assert init + [p] == paths;
      NamesInNonEmpty(init, d);
      DirsSnoc(init, p);
      NamesInSnoc(init, p, d);
    }
  }

  /** Every name listed under `d` is the base name of a path in `d`. */
  lemma {:induction false} NamesInMember(paths: seq<string>, d: string, n: string)
    requires n in NamesIn(paths, d)
    ensures exists i :: 0 <= i < |paths| && Paths.Dirname(paths[i]) == d && Paths.Basename(paths[i]) == n
  {
    var init := paths[..|paths| - 1];
    var p := paths[|paths| - 1];
    if n in NamesIn(init, d) {
      NamesInMember(init, d, n);
      var i :| 0 <= i < |init| && Paths.Dirname(init[i]) == d && Paths.Basename(init[i]) == n;
      assert paths[i] == init[i];
    } else {
      assert Paths.Dirname(p) == d && Paths.Basename(p) == n;
    }
  }

  /** Every path's base name is listed under its directory. */
  lemma {:induction false} PathListed(paths: seq<string>, i: nat)
    requires i < |paths|
    ensures Paths.Basename(paths[i]) in NamesIn(paths, Paths.Dirname(paths[i]))
  {
    var init := paths[..|paths| - 1];
    if i < |init| {
      PathListed(init, i);
      assert init[i] == paths[i];
    }
  }

  /** For distinct normalised paths, each path's base name is listed exactly
      once under its directory. */
  lemma {:induction false} PathListedOnce(paths: seq<string>, i: nat)
    requires i < |paths|
    requires forall a, b :: 0 <= a < b < |paths| ==> paths[a] != paths[b]
    requires forall k :: 0 <= k < |paths| ==> Paths.IsNormalAbsolute(paths[k])
    ensures multiset(NamesIn(paths, Paths.Dirname(paths[i])))[Paths.Basename(paths[i])] == 1
  {
    var init := paths[..|paths| - 1];
    var p := paths[|paths| - 1];
    var d, n := Paths.Dirname(paths[i]), Paths.Basename(paths[i]);
    if i == |init| {
      if n in NamesIn(init, d) {
        NamesInMember(init, d, n);
        var j :| 0 <= j < |init| && Paths.Dirname(init[j]) == d && Paths.Basename(init[j]) == n;
        assert paths[j] == init[j];
        Paths.JoinDirnameBasename(init[j]);
        Paths.JoinDirnameBasename(p);
        assert false;
      }
    } else {
      PathListedOnce(init, i);
      assert init[i] == paths[i];
      if Paths.Dirname(p) == d && Paths.Basename(p) == n {
        Paths.JoinDirnameBasename(paths[i]);
        Paths.JoinDirnameBasename(p);
        assert false;
      }
    }
  }

  /** The number of names listed under the directories `ds`. */
  function NameCount(ds: seq<string>, paths: seq<string>): nat
  {
    if ds == [] then 0 else NameCount(ds[..|ds| - 1], paths) + |NamesIn(paths, ds[|ds| - 1])|
  }

  lemma {:induction false} NameCountOther(ds: seq<string>, paths: seq<string>, p: string)
    requires Paths.Dirname(p) !in ds
    ensures NameCount(ds, paths + [p]) == NameCount(ds, paths)
  {
    if ds != [] {
      NameCountOther(ds[..|ds| - 1], paths, p);
      NamesInSnoc(paths, p, ds[|ds| - 1]);
    }
  }

  lemma {:induction false} NameCountSame(ds: seq<string>, paths: seq<string>, p: string)
    requires Paths.Dirname(p) in ds
    requires forall i, j :: 0 <= i < j < |ds| ==> ds[i] != ds[j]
    ensures NameCount(ds, paths + [p]) == NameCount(ds, paths) + 1
  {
    var init := ds[..|ds| - 1];
    NamesInSnoc(paths, p, ds[|ds| - 1]);
    if ds[|ds| - 1] == Paths.Dirname(p) {
      NameCountOther(init, paths, p);
    } else {
      NameCountSame(init, paths, p);
    }
  }

  /** Grouping loses no file and invents none: the lists hold as many names
      as there are paths. */
  lemma {:induction false} NameCountTotal(paths: seq<string>)
    ensures NameCount(Dirs(paths), paths) == |paths|
  {
    if paths != [] {
      var init := paths[..|paths| - 1];
      var p := paths[|paths| - 1];
      assert init + [p] == paths;
      NameCountTotal(init);
      DirsSnoc(init, p);
      DirsDistinct(init);
      var d := Paths.Dirname(p);
      if d in Dirs(init) {
        NameCountSame(Dirs(init), init, p);
      } else {
        NameCountOther(Dirs(init), init, p);
        NamesInNonEmpty(init, d);
        NamesInSnoc(init, p, d);
        assert (Dirs(init) + [d])[..|Dirs(init)|] == Dirs(init);
      }
    }
  }

  /** A directory name JavaScript treats as an array index: decimal digits
      without a leading zero. `Object.keys` lists such keys first, in numeric
      order, before the other keys in creation order. */
  ghost predicate IsArrayIndexName(d: string)
  {
    && |d| >= 1
    && (forall k :: 0 <= k < |d| ==> '0' <= d[k] <= '9')
    && (d[0] == '0' ==> |d| == 1)
  }

  /** For absolute paths no directory is an array index, so creation order is
      the order `Object.keys` visits the grouping's keys in. */
  lemma AbsoluteDirsAreNotIndices(paths: seq<string>)
    requires forall i :: 0 <= i < |paths| ==> |paths[i]| > 0 && paths[i][0] == Paths.Separator
    ensures forall d :: d in Dirs(paths) ==> !IsArrayIndexName(d)
  {
    forall d | d in Dirs(paths)
      ensures !IsArrayIndexName(d)
    {
      DirsMembers(paths, d);
      var i :| 0 <= i < |paths| && Paths.Dirname(paths[i]) == d;
      Paths.DirnameThenBasename(paths[i]);
      assert d == [] || d[0] == paths[i][0];
    }
  }

  /** `dirs` and `names` hold the grouping of `paths`. */
  ghost predicate GroupedBy(paths: seq<string>, dirs: seq<string>, names: map<string, seq<string>>)
  {
    && dirs == Dirs(paths)
    && (forall d :: d in names <==> d in dirs)
    && (forall d :: d in names ==> names[d] == NamesIn(paths, d))
  }

  /** Appending the base name of `p` to the list of its directory keeps the
      list of directory `d` equal to the names of `d` in the longer prefix. */
  lemma GroupNameStep(paths: seq<string>, p: string, old_list: seq<string>, new_list: seq<string>, d: string)
    requires old_list == NamesIn(paths, d)
    requires new_list == if Paths.Dirname(p) == d then old_list + [Paths.Basename(p)] else old_list
    ensures new_list == NamesIn(paths + [p], d)
  {
    NamesInSnoc(paths, p, d);
  }

  /** One iteration of the grouping loop extends the grouping by one path. */
  lemma GroupStep(paths: seq<string>, p: string, dirs: seq<string>, names: map<string, seq<string>>,
                  dirs': seq<string>, names': map<string, seq<string>>)
    requires GroupedBy(paths, dirs, names)
    requires var d := Paths.Dirname(p);
      && dirs' == (if d in names then dirs else dirs + [d])
      && names' == names[d := (if d in names then names[d] else []) + [Paths.Basename(p)]]
    ensures GroupedBy(paths + [p], dirs', names')
  {
    DirsSnoc(paths, p);
    var d0 := Paths.Dirname(p);
    NamesInNonEmpty(paths, d0);
    forall d | d in names'
      ensures names'[d] == NamesIn(paths + [p], d)
    {
      if d == d0 {
        GroupNameStep(paths, p, if d0 in names then names[d0] else [], names'[d], d);
      } else {
        GroupNameStep(paths, p, names[d], names'[d], d);
      }
    }
  }

  /** `groupFilesByDirectory`: visits the keys in order and appends each base
      name to the list of its directory, creating the list on first use. */
  method GroupFilesByDirectory(filePathToContent: FilePathToContent) returns (g: Grouping)
    ensures g.dirs == Dirs(filePathToContent.paths)
    ensures forall d :: d in g.names <==> d in g.dirs
    ensures forall d :: d in g.names ==> g.names[d] == NamesIn(filePathToContent.paths, d)
  {
    var paths := filePathToContent.paths;
    var dirs: seq<string> := [];
    var names: map<string, seq<string>> := map[];
    for i := 0 to |paths|
      invariant GroupedBy(paths[..i], dirs, names)
    {
      ghost var dirs0, names0 := dirs, names;
      ghost var prefix := paths[..i];
      assert paths[..i + 1] == prefix + [paths[i]];
      var directory := Paths.Dirname(paths[i]);
      var fileName := Paths.Basename(paths[i]);
      if directory !in names {
        dirs := dirs + [directory];
        names := names[directory := []];
      }
      names := names[directory := names[directory] + [fileName]];
      GroupStep(prefix, paths[i], dirs0, names0, dirs, names);
    }
    assert paths[..|paths|] == paths;
    g := Grouping(dirs, names);
  }

  // ---------------------------------------------------------------------------
  // Pairing

  /** A directory's file list qualifies iff it has exactly two entries and
      both recognised names are among them. */
  predicate IsPoetryProject(files: seq<string>)
  {
    |files| == 2 && ManifestName in files && LockName in files
  }

  /** The pair emitted for directory `d`. */
  function PairFor(d: string): ManifestLockPathPair
  {
    ManifestLockPathPair(Paths.Join(d, ManifestName), Paths.Join(d, LockName))
  }

  /** The directories among `ds` whose files form a Poetry project, in order. */
  function PoetryDirsAmong(ds: seq<string>, paths: seq<string>): seq<string>
  {
    if ds == [] then []
    else
      var prev := PoetryDirsAmong(ds[..|ds| - 1], paths);
      if IsPoetryProject(NamesIn(paths, ds[|ds| - 1])) then prev + [ds[|ds| - 1]] else prev
  }

  function PoetryDirs(paths: seq<string>): seq<string>
  {
    PoetryDirsAmong(Dirs(paths), paths)
  }

  function PairsOf(ds: seq<string>): (pairs: seq<ManifestLockPathPair>)
  {
    seq(|ds|, k requires 0 <= k < |ds| => PairFor(ds[k]))
  }

  /** The pairs the locator emits: one per qualifying directory, in the order
      of the directories. */
  function ExpectedPairs(paths: seq<string>): seq<ManifestLockPathPair>
  {
    PairsOf(PoetryDirs(paths))
  }

  /** A list qualifies iff it is exactly the two recognised names, in either
      order: a directory with one file, or three or more, never qualifies. */
  lemma IsPoetryProjectExactly(files: seq<string>)
    ensures IsPoetryProject(files) <==> files == [ManifestName, LockName] || files == [LockName, ManifestName]
  {
    if IsPoetryProject(files) {
      assert files[0] == ManifestName || files[0] == LockName;
      assert files[1] == ManifestName || files[1] == LockName;
    }
  }

  lemma PoetryDirsAmongSnoc(ds: seq<string>, d: string, paths: seq<string>)
    ensures PoetryDirsAmong(ds + [d], paths) ==
              PoetryDirsAmong(ds, paths) + (if IsPoetryProject(NamesIn(paths, d)) then [d] else [])
  {
    assert (ds + [d])[..|ds|] == ds;
  }

  lemma PairsOfSnoc(ds: seq<string>, d: string)
    ensures PairsOf(ds + [d]) == PairsOf(ds) + [PairFor(d)]
  {
  }

  /** Visiting one more directory, whose file list is `files`, adds its pair
      exactly when `files` forms a Poetry project (`qualifies`). */
  lemma LocatorStep(paths: seq<string>, visited: seq<string>, d: string, files: seq<string>, qualifies: bool)
    requires files == NamesIn(paths, d)
    requires qualifies == IsPoetryProject(files)
    ensures PairsOf(PoetryDirsAmong(visited + [d], paths)) ==
              PairsOf(PoetryDirsAmong(visited, paths)) + (if qualifies then [PairFor(d)] else [])
  {
    PoetryDirsAmongSnoc(visited, d, paths);
    PairsOfSnoc(PoetryDirsAmong(visited, paths), d);
  }

  /** The qualifying directories are exactly those of `ds` whose file list
      forms a Poetry project. */
  lemma {:induction false} PoetryDirsAmongMembers(ds: seq<string>, paths: seq<string>)
    ensures |PoetryDirsAmong(ds, paths)| <= |ds|
    ensures forall d :: d in PoetryDirsAmong(ds, paths) <==> d in ds && IsPoetryProject(NamesIn(paths, d))
  {
    if ds != [] {
      var init := ds[..|ds| - 1];
      PoetryDirsAmongMembers(init, paths);
      assert init + [ds[|ds| - 1]] == ds;
      PoetryDirsAmongSnoc(init, ds[|ds| - 1], paths);
    }
  }

  /** Filtering distinct directories keeps them distinct. */
  lemma {:induction false} PoetryDirsAmongDistinct(ds: seq<string>, paths: seq<string>)
    requires forall i, j :: 0 <= i < j < |ds| ==> ds[i] != ds[j]
    ensures forall i, j :: 0 <= i < j < |PoetryDirsAmong(ds, paths)| ==> PoetryDirsAmong(ds, paths)[i] != PoetryDirsAmong(ds, paths)[j]
  {
    if ds != [] {
      var init := ds[..|ds| - 1];
      var d := ds[|ds| - 1];
      PoetryDirsAmongDistinct(init, paths);
      PoetryDirsAmongMembers(init, paths);
      assert init + [d] == ds;
      assert d !in init;
      PoetryDirsAmongSnoc(init, d, paths);
    }
  }

  /** The pairing rule: a directory yields a pair iff some file lies in it and
      its file list is exactly the two recognised names; each directory yields
      at most one pair, so there are no more pairs than directories. */
  lemma PoetryDirsSpec(paths: seq<string>, d: string)
    ensures d in PoetryDirs(paths) <==>
              (exists i :: 0 <= i < |paths| && Paths.Dirname(paths[i]) == d) && IsPoetryProject(NamesIn(paths, d))
    ensures forall i, j :: 0 <= i < j < |PoetryDirs(paths)| ==> PoetryDirs(paths)[i] != PoetryDirs(paths)[j]
    ensures |ExpectedPairs(paths)| <= |Dirs(paths)|
  {
    PoetryDirsAmongMembers(Dirs(paths), paths);
    DirsDistinct(paths);
    PoetryDirsAmongDistinct(Dirs(paths), paths);
    DirsMembers(paths, d);
  }

  /** For normalised absolute paths, both paths of every emitted pair are keys
      of the snapshot, lie in the same directory, and have the recognised base
      names. */
  lemma PairPathsInSnapshot(paths: seq<string>, k: nat)
    requires forall i :: 0 <= i < |paths| ==> Paths.IsNormalAbsolute(paths[i])
    requires k < |ExpectedPairs(paths)|
    ensures ExpectedPairs(paths)[k].manifest in paths && ExpectedPairs(paths)[k].lock in paths
    ensures Paths.Basename(ExpectedPairs(paths)[k].manifest) == ManifestName
    ensures Paths.Basename(ExpectedPairs(paths)[k].lock) == LockName
    ensures Paths.Dirname(ExpectedPairs(paths)[k].manifest) == Paths.Dirname(ExpectedPairs(paths)[k].lock)
  {
    var d := PoetryDirs(paths)[k];
    PoetryDirsAmongMembers(Dirs(paths), paths);
    assert IsPoetryProject(NamesIn(paths, d));
    NamesInMember(paths, d, ManifestName);
    var i :| 0 <= i < |paths| && Paths.Dirname(paths[i]) == d && Paths.Basename(paths[i]) == ManifestName;
    NamesInMember(paths, d, LockName);
    var j :| 0 <= j < |paths| && Paths.Dirname(paths[j]) == d && Paths.Basename(paths[j]) == LockName;
    Paths.JoinDirnameBasename(paths[i]);
    Paths.JoinDirnameBasename(paths[j]);
    Paths.NormalAbsoluteParts(paths[i]);
    Paths.DirnameBasenameOfJoin(d, ManifestName);
    Paths.DirnameBasenameOfJoin(d, LockName);
  }

  /** `findManifestLockPairsInSameDirectory`: one pair per directory whose
      file list is exactly the manifest and the lock file. */
  method FindManifestLockPairsInSameDirectory(filePathToContent: FilePathToContent)
    returns (pairs: seq<ManifestLockPathPair>)
    ensures pairs == ExpectedPairs(filePathToContent.paths)
  {
    var paths := filePathToContent.paths;
    var grouped := GroupFilesByDirectory(filePathToContent);
    pairs := [];
    for i := 0 to |grouped.dirs|
      invariant pairs == PairsOf(PoetryDirsAmong(grouped.dirs[..i], paths))
    {
      ghost var visited := grouped.dirs[..i];
      TakeOneMore(grouped.dirs, i);
      var directoryPath := grouped.dirs[i];
      assert directoryPath in grouped.names;
      var filesInDirectory := grouped.names[directoryPath];
      if |filesInDirectory| != 2 {
        LocatorStep(paths, visited, directoryPath, filesInDirectory, false);
        continue;
      }
      var hasManifest := ManifestName in filesInDirectory;
      var hasLockFile := LockName in filesInDirectory;
      LocatorStep(paths, visited, directoryPath, filesInDirectory, hasManifest && hasLockFile);
      if hasManifest && hasLockFile {
        pairs := pairs + [PairFor(directoryPath)];
      }
    }
    assert grouped.dirs[..|grouped.dirs|] == grouped.dirs;
  }

  // ---------------------------------------------------------------------------
  // Scan results

  /** Both paths of every pair are keys of the snapshot. */
  ghost predicate PairsInSnapshot(s: FilePathToContent, pairs: seq<ManifestLockPathPair>)
  {
    forall k :: 0 <= k < |pairs| ==> pairs[k].manifest in s.content && pairs[k].lock in s.content
  }

  /** The result built for a pair whose graph was built. */
  function ResultFor(pair: ManifestLockPathPair, graph: DepGraph): ScanResult
  {
    ScanResult(
      [DepGraphFact(graph), TestedFilesFact([Paths.Basename(pair.manifest), Paths.Basename(pair.lock)])],
      Identity(graph.pkgManager.name, pair.manifest))
  }

  /** The results for `pairs`, in pair order: a pair for which the builder
      gives no graph contributes nothing. */
  function Scanned(s: FilePathToContent, buildDepGraph: (string, string, bool) -> Option<DepGraph>,
                   pairs: seq<ManifestLockPathPair>): seq<ScanResult>
    requires PairsInSnapshot(s, pairs)
  {
    if pairs == [] then []
    else
      var pair := pairs[|pairs| - 1];
      var prev := Scanned(s, buildDepGraph, pairs[..|pairs| - 1]);
      match buildDepGraph(s.content[pair.manifest], s.content[pair.lock], IncludeDevDependencies)
      case None => prev
      case Some(graph) => prev + [ResultFor(pair, graph)]
  }

  /** One more pair adds its own result, if any, at the end. */
  lemma ScannedSnoc(s: FilePathToContent, buildDepGraph: (string, string, bool) -> Option<DepGraph>,
                    pairs: seq<ManifestLockPathPair>, i: nat)
    requires PairsInSnapshot(s, pairs) && i < |pairs|
    ensures PairsInSnapshot(s, pairs[..i]) && PairsInSnapshot(s, pairs[..i + 1])
    ensures var g := buildDepGraph(s.content[pairs[i].manifest], s.content[pairs[i].lock], IncludeDevDependencies);
      Scanned(s, buildDepGraph, pairs[..i + 1]) ==
        Scanned(s, buildDepGraph, pairs[..i]) + (if g.Some? then [ResultFor(pairs[i], g.value)] else [])
  {
    assert pairs[..i + 1][..i] == pairs[..i];
  }

  /** Appending one pair adds its own result, if any, at the end. */
  lemma ScannedLast(s: FilePathToContent, buildDepGraph: (string, string, bool) -> Option<DepGraph>,
                    pairs: seq<ManifestLockPathPair>, pair: ManifestLockPathPair)
    requires PairsInSnapshot(s, pairs) && pair.manifest in s.content && pair.lock in s.content
    ensures PairsInSnapshot(s, pairs + [pair])
    ensures var g := buildDepGraph(s.content[pair.manifest], s.content[pair.lock], IncludeDevDependencies);
      Scanned(s, buildDepGraph, pairs + [pair]) ==
        Scanned(s, buildDepGraph, pairs) + (if g.Some? then [ResultFor(pair, g.value)] else [])
  {
    assert (pairs + [pair])[..|pairs|] == pairs;
  }

  /** Pairs are scanned independently: the results of a concatenation are the
      concatenation of the results. */
  lemma {:induction false} ScannedAppend(s: FilePathToContent, buildDepGraph: (string, string, bool) -> Option<DepGraph>,
                                         a: seq<ManifestLockPathPair>, b: seq<ManifestLockPathPair>)
    requires PairsInSnapshot(s, a) && PairsInSnapshot(s, b)
    ensures PairsInSnapshot(s, a + b)
    ensures Scanned(s, buildDepGraph, a + b) == Scanned(s, buildDepGraph, a) + Scanned(s, buildDepGraph, b)
  {
    if b == [] {
      assert a + b == a;
    } else {
      var init, last := b[..|b| - 1], b[|b| - 1];
      assert init + [last] == b;
      assert last == b[|b| - 1];
      ScannedAppend(s, buildDepGraph, a, init);
      assert a + b == (a + init) + [last];
      ScannedLast(s, buildDepGraph, a + init, last);
      ScannedLast(s, buildDepGraph, init, last);
    }
  }

  /** A pair whose graph cannot be built is skipped and the others are
      unaffected; a pair whose graph is built contributes exactly its own
      result, in its place. */
  lemma PairIsolation(s: FilePathToContent, buildDepGraph: (string, string, bool) -> Option<DepGraph>,
                      a: seq<ManifestLockPathPair>, pair: ManifestLockPathPair, b: seq<ManifestLockPathPair>)
    requires PairsInSnapshot(s, a) && PairsInSnapshot(s, b)
    requires pair.manifest in s.content && pair.lock in s.content
    ensures PairsInSnapshot(s, a + [pair] + b)
    ensures var g := buildDepGraph(s.content[pair.manifest], s.content[pair.lock], IncludeDevDependencies);
      Scanned(s, buildDepGraph, a + [pair] + b) ==
        Scanned(s, buildDepGraph, a) + (if g.Some? then [ResultFor(pair, g.value)] else []) + Scanned(s, buildDepGraph, b)
  {
    ScannedAppend(s, buildDepGraph, a, [pair]);
    ScannedAppend(s, buildDepGraph, a + [pair], b);
    assert [pair][..0] == [];
  }

  lemma PoetryDirsAmongSingleton(d: string, paths: seq<string>)
    ensures PoetryDirsAmong([d], paths) == if IsPoetryProject(NamesIn(paths, d)) then [d] else []
  {
    assert [d][..0] == [];
  }

  /** A snapshot of just a manifest and a lock file in one directory yields
      exactly one pair, made of those two paths. */
  lemma SingleProjectPairs(paths: seq<string>)
    requires |paths| == 2
    requires Paths.IsNormalAbsolute(paths[0]) && Paths.IsNormalAbsolute(paths[1])
    requires Paths.Dirname(paths[0]) == Paths.Dirname(paths[1])
    requires Paths.Basename(paths[0]) == ManifestName && Paths.Basename(paths[1]) == LockName
    ensures ExpectedPairs(paths) == [ManifestLockPathPair(paths[0], paths[1])]
  {
    var d := Paths.Dirname(paths[0]);
    assert paths == [paths[0]] + [paths[1]];
    assert Dirs(paths) == [d] by {
      DirsSnoc([paths[0]], paths[1]);
      DirsSnoc([], paths[0]);
      assert [] + [paths[0]] == [paths[0]];
    }
    assert NamesIn(paths, d) == [ManifestName, LockName] by {
      NamesInSnoc([paths[0]], paths[1], d);
      NamesInSnoc([], paths[0], d);
      assert [] + [paths[0]] == [paths[0]];
    }
    PoetryDirsAmongSingleton(d, paths);
    Paths.JoinDirnameBasename(paths[0]);
    Paths.JoinDirnameBasename(paths[1]);
    assert PairFor(d) == ManifestLockPathPair(paths[0], paths[1]);
  }

  /** For that snapshot, when the graph is built, the scan gives exactly one
      result: its target file is the manifest and its tested files are the
      two recognised names. */
  lemma SingleProjectScan(s: FilePathToContent, buildDepGraph: (string, string, bool) -> Option<DepGraph>, graph: DepGraph)
    requires |s.paths| == 2
    requires Paths.IsNormalAbsolute(s.paths[0]) && Paths.IsNormalAbsolute(s.paths[1])
    requires Paths.Dirname(s.paths[0]) == Paths.Dirname(s.paths[1])
    requires Paths.Basename(s.paths[0]) == ManifestName && Paths.Basename(s.paths[1]) == LockName
    requires s.paths[0] in s.content && s.paths[1] in s.content
    requires buildDepGraph(s.content[s.paths[0]], s.content[s.paths[1]], IncludeDevDependencies) == Some(graph)
    ensures PairsInSnapshot(s, ExpectedPairs(s.paths))
    ensures Scanned(s, buildDepGraph, ExpectedPairs(s.paths)) ==
              [ScanResult([DepGraphFact(graph), TestedFilesFact([ManifestName, LockName])],
                          Identity(graph.pkgManager.name, s.paths[0]))]
  {
    SingleProjectPairs(s.paths);
    var pair := ManifestLockPathPair(s.paths[0], s.paths[1]);
    assert [pair][..0] == [];
  }

  /** A result as the scan builds it for a pair found by the locator. */
  ghost predicate IsPoetryResult(s: FilePathToContent, r: ScanResult)
  {
    && |r.facts| == 2
    && r.facts[0].DepGraphFact?
    && r.facts[1] == TestedFilesFact([ManifestName, LockName])
    && r.identity.kind == r.facts[0].graph.pkgManager.name
    && r.identity.targetFile in s.content
    && Paths.Basename(r.identity.targetFile) == ManifestName
  }

  /** For a snapshot of normalised absolute paths, the located pairs name keys
      of the snapshot with the recognised base names, and there are no more of
      them than directories. */
  lemma LocatedPairsInSnapshot(s: FilePathToContent)
    requires ValidSnapshot(s)
    requires forall p :: p in s.paths ==> Paths.IsNormalAbsolute(p)
    ensures PairsInSnapshot(s, ExpectedPairs(s.paths))
    ensures forall k :: 0 <= k < |ExpectedPairs(s.paths)| ==>
      && Paths.Basename(ExpectedPairs(s.paths)[k].manifest) == ManifestName
      && Paths.Basename(ExpectedPairs(s.paths)[k].lock) == LockName
    ensures |ExpectedPairs(s.paths)| <= |Dirs(s.paths)|
  {
    var pairs := ExpectedPairs(s.paths);
    forall k | 0 <= k < |pairs|
      ensures pairs[k].manifest in s.content && pairs[k].lock in s.content
      ensures Paths.Basename(pairs[k].manifest) == ManifestName && Paths.Basename(pairs[k].lock) == LockName
    {
      PairPathsInSnapshot(s.paths, k);
    }
    PoetryDirsSpec(s.paths, "");
  }

  /** `poetryFilesToScannedProjects`: builds the graph of each pair (without
      development dependencies) and emits a result for every pair whose graph
      was built. */
  method PoetryFilesToScannedProjects(filePathToContent: FilePathToContent,
                                      buildDepGraph: (string, string, bool) -> Option<DepGraph>)
    returns (scanResults: seq<ScanResult>)
    requires ValidSnapshot(filePathToContent)
    requires forall p :: p in filePathToContent.paths ==> Paths.IsNormalAbsolute(p)
    ensures PairsInSnapshot(filePathToContent, ExpectedPairs(filePathToContent.paths))
      && scanResults == Scanned(filePathToContent, buildDepGraph, ExpectedPairs(filePathToContent.paths))
    ensures |scanResults| <= |Dirs(filePathToContent.paths)|
    ensures forall r :: r in scanResults ==> IsPoetryResult(filePathToContent, r)
  {
    var paths := filePathToContent.paths;
    scanResults := [];
    var filePairs := FindManifestLockPairsInSameDirectory(filePathToContent);
    LocatedPairsInSnapshot(filePathToContent);
    var shouldIncludeDevDependencies := IncludeDevDependencies;
    for i := 0 to |filePairs|
      invariant PairsInSnapshot(filePathToContent, filePairs[..i])
      invariant scanResults == Scanned(filePathToContent, buildDepGraph, filePairs[..i])
      invariant |scanResults| <= i
      invariant forall r :: r in scanResults ==> IsPoetryResult(filePathToContent, r)
    {
      ScannedSnoc(filePathToContent, buildDepGraph, filePairs, i);
      var pathPair := filePairs[i];
      var depGraph := buildDepGraph(filePathToContent.content[pathPair.manifest],
                                    filePathToContent.content[pathPair.lock],
                                    shouldIncludeDevDependencies);
      if depGraph.None? {
        continue;
      }
      var depGraphFact := DepGraphFact(depGraph.value);
      var testedFilesFact := TestedFilesFact([Paths.Basename(pathPair.manifest), Paths.Basename(pathPair.lock)]);
      var result := ScanResult([depGraphFact, testedFilesFact], Identity(depGraph.value.pkgManager.name, pathPair.manifest));
      assert IsPoetryResult(filePathToContent, result);
      scanResults := scanResults + [result];
    }
    assert filePairs[..|filePairs|] == filePairs;
  }
}
