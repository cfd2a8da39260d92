/** Package selection in the directory walker: which directories are visited, how a
    directory's entries are split into .go files and other files, how .go files are
    grouped into packages, which package is chosen, and which files it receives.
    Directory listings and the classification of each file are inputs. */
module Packages {
  import opened Wrappers
  import opened Strings

  // ===========================================================================
  // Inputs
  // ===========================================================================

  /** One entry of a directory listing. */
  datatype DirEntry = DirEntry(name: string, isDir: bool)

  /** The classification of a file: the package its `package` clause names, whether it
      uses cgo, and whether the build tags and platform constraints admit it. */
  datatype FileInfo = FileInfo(packageName: string, isCgo: bool, buildable: bool)

  /** The directory being read, the repository root and the Go import prefix. */
  datatype Reader = Reader(repoRoot: string, goPrefix: string, dir: string)

  /** A file recorded in a package: its name, its classification and the cgo flag it
      was added with. */
  datatype AddedFile = AddedFile(name: string, info: FileInfo, cgo: bool)

  /** A package found in a directory and the files recorded in it, in the order added. */
  datatype Package = Package(name: string, dir: string, files: seq<AddedFile>)

  /** A recorded .go file the build admits. */
  predicate IsGoSource(f: AddedFile) {
    HasSuffix(f.name, ".go") && f.info.buildable
  }

  /** HasGo: the package has a .go file the build admits. */
  predicate HasGo(p: Package) {
    exists i :: 0 <= i < |p.files| && IsGoSource(p.files[i])
  }

  /** firstGoFile: the name of the first such file ("" when there is none). */
  function FirstGoFile(files: seq<AddedFile>): (name: string)
    ensures name != "" ==> exists i :: 0 <= i < |files| && IsGoSource(files[i]) && files[i].name == name
    ensures (exists i :: 0 <= i < |files| && IsGoSource(files[i])) ==> HasSuffix(name, ".go")
  {
    if files == [] then ""
    else if IsGoSource(files[0]) then files[0].name
    else
      assert forall i :: 0 < i < |files| ==> files[i] == files[1..][i - 1];
      FirstGoFile(files[1..])
  }

  // ===========================================================================
  // Walk
  // ===========================================================================

  /** Walk does not enter a directory whose base name is empty, starts with '.', or
      is "testdata". */
  predicate SkipDir(base: string) {
    base == "" || base[0] == '.' || base == "testdata"
  }

  /** A directory tree as Walk sees it: each directory's path, its listing (None when
      it cannot be read), the classification of its files, and its subdirectories in
      the order the walk visits them. */
  datatype DirTree = DirTree(
    path: string,
    listing: Option<seq<DirEntry>>,
    goInfos: map<string, FileInfo>,
    otherInfos: map<string, FileInfo>,
    subdirs: seq<DirTree>)

  /** The packages Walk passes to its callback, in call order. */
  ghost function WalkPackages(t: DirTree, repoRoot: string, goPrefix: string): seq<Package>
    decreases t
  {
    if SkipDir(Base(t.path)) then []
    else FoundIn(t, repoRoot, goPrefix) + WalkForest(t.subdirs, repoRoot, goPrefix)
  }

  /** The package found in the directory itself, if any, as a sequence. */
  ghost function FoundIn(d: DirTree, repoRoot: string, goPrefix: string): seq<Package> {
    var found := FoundPackage(Reader(repoRoot, goPrefix, d.path), d.listing, d.goInfos, d.otherInfos);
    if found.Some? then [found.value] else []
  }

  ghost function WalkForest(ts: seq<DirTree>, repoRoot: string, goPrefix: string): seq<Package>
    decreases ts
  {
    if ts == [] then []
    else WalkPackages(ts[0], repoRoot, goPrefix) + WalkForest(ts[1..], repoRoot, goPrefix)
  }

  /** The directories Walk enters, in visiting order: none below a skipped one. */
  function Visited(t: DirTree): seq<DirTree>
    decreases t
  {
    if SkipDir(Base(t.path)) then [] else [t] + VisitedForest(t.subdirs)
  }

  function VisitedForest(ts: seq<DirTree>): seq<DirTree>
    decreases ts
  {
    if ts == [] then [] else Visited(ts[0]) + VisitedForest(ts[1..])
  }

  // ===========================================================================
  // findPackage: the directory entries
  // ===========================================================================

  /** Entries findPackage ignores: subdirectories and names that are empty or start
      with '.' or '_'. */
  predicate Ignored(e: DirEntry) {
    e.isDir || e.name == "" || e.name[0] == '.' || e.name[0] == '_'
  }

  /** The .go files of a listing, in listing order. */
  function GoFiles(entries: seq<DirEntry>): seq<string> {
    if entries == [] then []
    else
      var e := entries[|entries| - 1];
      GoFiles(entries[..|entries| - 1]) + (if !Ignored(e) && HasSuffix(e.name, ".go") then [e.name] else [])
  }

  /** The other files of a listing, in listing order. */
  function OtherFiles(entries: seq<DirEntry>): seq<string> {
    if entries == [] then []
    else
      var e := entries[|entries| - 1];
      OtherFiles(entries[..|entries| - 1]) + (if !Ignored(e) && !HasSuffix(e.name, ".go") then [e.name] else [])
  }

  /** The first loop of findPackage: split the listing into .go files and other files. */
  method Partition(entries: seq<DirEntry>) returns (goFiles: seq<string>, otherFiles: seq<string>)
    ensures goFiles == GoFiles(entries) && otherFiles == OtherFiles(entries)
  {
    goFiles, otherFiles := [], [];
    for i := 0 to |entries|
      invariant goFiles == GoFiles(entries[..i]) && otherFiles == OtherFiles(entries[..i])
    {
      assert entries[..i + 1][..i] == entries[..i];
      var e := entries[i];
      if e.isDir {
        continue;
      }
      if e.name == "" || e.name[0] == '.' || e.name[0] == '_' {
        continue;
      }
      if HasSuffix(e.name, ".go") {
        goFiles := goFiles + [e.name];
      } else {
        otherFiles := otherFiles + [e.name];
      }
    }
    assert entries[..|entries|] == entries;
  }

  /** The names of the entries that are not ignored, in listing order. */
  function Kept(entries: seq<DirEntry>): seq<string> {
    if entries == [] then []
    else
      var e := entries[|entries| - 1];
      Kept(entries[..|entries| - 1]) + (if !Ignored(e) then [e.name] else [])
  }

  /** The names in `names` that end in ".go" (when `go`) or do not (otherwise), in order. */
  function WithGoSuffix(names: seq<string>, go: bool): seq<string> {
    if names == [] then []
    else
      var n := names[|names| - 1];
      WithGoSuffix(names[..|names| - 1], go) + (if HasSuffix(n, ".go") == go then [n] else [])
  }

  /** The partition keeps exactly the entries that are not ignored, each in one of the
      two lists according to its suffix, and in listing order: each list is the kept
      names filtered by suffix. */
  lemma PartitionSplits(entries: seq<DirEntry>)
    ensures GoFiles(entries) == WithGoSuffix(Kept(entries), true)
    ensures OtherFiles(entries) == WithGoSuffix(Kept(entries), false)
    ensures forall n :: n in Kept(entries) <==>
              exists i :: 0 <= i < |entries| && !Ignored(entries[i]) && entries[i].name == n
  {
    GoFilesKept(entries);
    OtherFilesKept(entries);
    KeptMembers(entries);
  }

  lemma WithGoSuffixSnoc(names: seq<string>, n: string, go: bool)
    ensures WithGoSuffix(names + [n], go) == WithGoSuffix(names, go) + (if HasSuffix(n, ".go") == go then [n] else [])
  {
    assert (names + [n])[..|names|] == names;
  }

  lemma {:induction false} GoFilesKept(entries: seq<DirEntry>)
    ensures GoFiles(entries) == WithGoSuffix(Kept(entries), true)
  {
    if entries != [] {
      var front := entries[..|entries| - 1];
      var e := entries[|entries| - 1];
      GoFilesKept(front);
      assert GoFiles(entries) == GoFiles(front) + (if !Ignored(e) && HasSuffix(e.name, ".go") then [e.name] else []);
      if !Ignored(e) {
        assert Kept(entries) == Kept(front) + [e.name];
        WithGoSuffixSnoc(Kept(front), e.name, true);
      } else {
        assert Kept(entries) == Kept(front);
      }
    }
  }

  lemma {:induction false} OtherFilesKept(entries: seq<DirEntry>)
    ensures OtherFiles(entries) == WithGoSuffix(Kept(entries), false)
  {
    if entries != [] {
      var front := entries[..|entries| - 1];
      var e := entries[|entries| - 1];
      OtherFilesKept(front);
      assert OtherFiles(entries) == OtherFiles(front) + (if !Ignored(e) && !HasSuffix(e.name, ".go") then [e.name] else []);
      if !Ignored(e) {
        assert Kept(entries) == Kept(front) + [e.name];
        WithGoSuffixSnoc(Kept(front), e.name, false);
      } else {
        assert Kept(entries) == Kept(front);
      }
    }
  }

  lemma {:induction false} KeptMembers(entries: seq<DirEntry>)
    ensures forall n :: n in Kept(entries) <==>
              exists i :: 0 <= i < |entries| && !Ignored(entries[i]) && entries[i].name == n
  {
    if entries != [] {
      var front := entries[..|entries| - 1];
      KeptMembers(front);
      assert forall i :: 0 <= i < |front| ==> front[i] == entries[i];
    }
  }

  // ===========================================================================
  // findPackage: grouping the .go files into packages
  // ===========================================================================

  /** The .go files the grouping loop records, in order: those that could be classified
      and whose package is not "documentation", each added with cgo off. */
  function Accepted(goFiles: seq<string>, goInfos: map<string, FileInfo>): seq<AddedFile> {
    if goFiles == [] then []
    else
      var name := goFiles[|goFiles| - 1];
      Accepted(goFiles[..|goFiles| - 1], goInfos) +
        (if name in goInfos && goInfos[name].packageName != "documentation"
         then [AddedFile(name, goInfos[name], false)] else [])
  }

  /** Some recorded file uses cgo. */
  predicate AnyCgo(files: seq<AddedFile>) {
    files != [] && (AnyCgo(files[..|files| - 1]) || files[|files| - 1].info.isCgo)
  }

  /** The package map built by recording each file in the package its clause names,
      creating the package in directory `dir` on first sight. */
  function PackageMap(files: seq<AddedFile>, dir: string): map<string, Package> {
    if files == [] then map[]
    else
      var m := PackageMap(files[..|files| - 1], dir);
      var f := files[|files| - 1];
      var p := if f.info.packageName in m then m[f.info.packageName] else Package(f.info.packageName, dir, []);
      m[f.info.packageName := p.(files := p.files + [f])]
  }

  /** The files of package `name`, in the order recorded. */
  function FilesOf(files: seq<AddedFile>, name: string): seq<AddedFile> {
    if files == [] then []
    else
      var f := files[|files| - 1];
      FilesOf(files[..|files| - 1], name) + (if f.info.packageName == name then [f] else [])
  }

  /** The second loop of findPackage. */
  method GroupGoFiles(pr: Reader, goFiles: seq<string>, goInfos: map<string, FileInfo>)
    returns (packageMap: map<string, Package>, cgo: bool)
    ensures packageMap == PackageMap(Accepted(goFiles, goInfos), pr.dir)
    ensures cgo == AnyCgo(Accepted(goFiles, goInfos))
  {
    packageMap, cgo := map[], false;
    for i := 0 to |goFiles|
      invariant packageMap == PackageMap(Accepted(goFiles[..i], goInfos), pr.dir)
      invariant cgo == AnyCgo(Accepted(goFiles[..i], goInfos))
    {
      assert goFiles[..i + 1][..i] == goFiles[..i];
      var goFile := goFiles[i];
      ghost var before := Accepted(goFiles[..i], goInfos);
      if goFile !in goInfos {
        assert Accepted(goFiles[..i + 1], goInfos) == before;
        continue;
      }
      var info := goInfos[goFile];
      if info.packageName == "documentation" {
        assert Accepted(goFiles[..i + 1], goInfos) == before;
        continue;
      }
      assert Accepted(goFiles[..i + 1], goInfos) == before + [AddedFile(goFile, info, false)];
      RecordStep(before, AddedFile(goFile, info, false), pr.dir);
      cgo := cgo || info.isCgo;
      if info.packageName !in packageMap {
        packageMap := packageMap[info.packageName := Package(info.packageName, pr.dir, [])];
      }
      var p := packageMap[info.packageName];
      packageMap := packageMap[info.packageName := p.(files := p.files + [AddedFile(goFile, info, false)])];
    }
    assert goFiles[..|goFiles|] == goFiles;
  }

  /** Recording one more file: the map and the cgo flag after one loop iteration. */
  lemma RecordStep(files: seq<AddedFile>, f: AddedFile, dir: string)
    ensures var m := PackageMap(files, dir);
            var p := if f.info.packageName in m then m[f.info.packageName] else Package(f.info.packageName, dir, []);
            PackageMap(files + [f], dir) == m[f.info.packageName := p.(files := p.files + [f])]
    ensures AnyCgo(files + [f]) <==> AnyCgo(files) || f.info.isCgo
  {
    assert (files + [f])[..|files|] == files;
  }

  /** Every recorded file was listed, classified as recorded, and does not belong to
      "documentation"; each listed file that classifies and is not "documentation" is
      recorded. */
  lemma {:induction false} AcceptedFiles(goFiles: seq<string>, goInfos: map<string, FileInfo>)
    ensures forall f :: f in Accepted(goFiles, goInfos) ==>
              f.name in goFiles && f.name in goInfos && f.info == goInfos[f.name] &&
              f.info.packageName != "documentation" && !f.cgo
    ensures forall n :: n in goFiles && n in goInfos && goInfos[n].packageName != "documentation" ==>
              AddedFile(n, goInfos[n], false) in Accepted(goFiles, goInfos)
  {
    if goFiles != [] {
      var front := goFiles[..|goFiles| - 1];
      AcceptedFiles(front, goInfos);
      assert goFiles == front + [goFiles[|goFiles| - 1]];
    }
  }

  /** cgo is set exactly when some recorded file uses cgo. */
  lemma {:induction false} AnyCgoIff(files: seq<AddedFile>)
    ensures AnyCgo(files) <==> exists i :: 0 <= i < |files| && files[i].info.isCgo
  {
    if files != [] {
      var front := files[..|files| - 1];
      AnyCgoIff(front);
      assert forall i :: 0 <= i < |front| ==> front[i] == files[i];
      if AnyCgo(front) {
        var i :| 0 <= i < |front| && front[i].info.isCgo;
        assert files[i].info.isCgo;
      }
    }
  }

  /** The package map has one package per package name among the recorded files; each
      is named after its key, lives in `dir` and holds exactly that name's files in the
      order recorded. */
  lemma {:induction false} PackageMapContents(files: seq<AddedFile>, dir: string)
    ensures forall n :: n in PackageMap(files, dir) <==> exists i :: 0 <= i < |files| && files[i].info.packageName == n
    ensures forall n :: n in PackageMap(files, dir) ==>
              PackageMap(files, dir)[n] == Package(n, dir, FilesOf(files, n))
  {
    if files != [] {
      var front := files[..|files| - 1];
      PackageMapContents(front, dir);
      assert forall i :: 0 <= i < |front| ==> front[i] == files[i];
      var f := files[|files| - 1];
      forall n | n !in PackageMap(front, dir)
        ensures FilesOf(front, n) == []
      {
        FilesOfAbsent(front, n);
      }
    }
  }

  lemma {:induction false} FilesOfAbsent(files: seq<AddedFile>, name: string)
    requires forall i :: 0 <= i < |files| ==> files[i].info.packageName != name
    ensures FilesOf(files, name) == []
  {
    if files != [] {
      var front := files[..|files| - 1];
      assert forall i :: 0 <= i < |front| ==> front[i] == files[i];
      FilesOfAbsent(front, name);
    }
  }

  /** Files of package "documentation" never create or join a package. */
  lemma NoDocumentationPackage(goFiles: seq<string>, goInfos: map<string, FileInfo>, dir: string)
    ensures "documentation" !in PackageMap(Accepted(goFiles, goInfos), dir)
  {
    var files := Accepted(goFiles, goInfos);
    AcceptedFiles(goFiles, goInfos);
    PackageMapContents(files, dir);
  }

  // ===========================================================================
  // selectPackage and defaultPackageName
  // ===========================================================================

  /** The errors selectPackage reports: no package with Go files, or several with none
      named after the directory, listed with the first .go file of each. */
  datatype SelectError =
    | NoGoError(dir: string)
    | MultiplePackageError(dir: string, packages: seq<string>, files: seq<string>)

  /** The packages that have Go files. */
  function WithGo(m: map<string, Package>): (r: map<string, Package>)
    ensures forall n :: n in r <==> n in m && HasGo(m[n])
    ensures forall n :: n in r ==> r[n] == m[n]
  {
    map n | n in m && HasGo(m[n]) :: m[n]
  }

  /** The package name expected for the directory: its base name, or at the repository
      root the base of the Go prefix, with "unnamed" in place of "." or "/". */
  function DefaultPackageName(pr: Reader): string {
    if pr.dir != pr.repoRoot then Base(pr.dir)
    else
      var name := Base(pr.goPrefix);
      if name == "." || name == "/" then "unnamed" else name
  }

  /** Away from the root the name is the directory's base name. At the root it is
      "unnamed" when the base of the Go prefix is "." or "/" (an empty or all-slash
      prefix, or one whose last element is "."), and otherwise the last element of the
      prefix: a non-empty, slash-free suffix of the prefix without its trailing
      slashes, preceded there by '/' or making up all of it. */
  lemma DefaultPackageNameIs(pr: Reader)
    ensures pr.dir != pr.repoRoot ==> DefaultPackageName(pr) == Base(pr.dir)
    ensures pr.dir == pr.repoRoot ==>
              DefaultPackageName(pr) != "" && DefaultPackageName(pr) != "." && DefaultPackageName(pr) != "/"
    ensures pr.dir == pr.repoRoot && AllSlashes(pr.goPrefix) ==> DefaultPackageName(pr) == "unnamed"
    ensures pr.dir == pr.repoRoot && Base(pr.goPrefix) in {".", "/"} ==> DefaultPackageName(pr) == "unnamed"
    ensures pr.dir == pr.repoRoot && Base(pr.goPrefix) !in {".", "/"} ==>
              DefaultPackageName(pr) == Base(pr.goPrefix)
    ensures pr.dir == pr.repoRoot && DefaultPackageName(pr) != "unnamed" ==>
              var t := TrimTrailingSlashes(pr.goPrefix);
              var n := DefaultPackageName(pr);
              !AllSlashes(pr.goPrefix) && '/' !in n && HasSuffix(t, n) && (|n| == |t| || t[|t| - |n| - 1] == '/')
  {
  }

  /** The package selectPackage returns: the only package with Go files, or among
      several the one named after the directory. */
  ghost function Selected(m: map<string, Package>, pr: Reader): Option<Package> {
    var withGo := WithGo(m);
    if |withGo.Keys| == 0 then None
    else if |withGo.Keys| == 1 then
      var n :| n in withGo; Some(withGo[n])
    else if DefaultPackageName(pr) in withGo then Some(withGo[DefaultPackageName(pr)])
    else None
  }

  /** What the error of selectPackage reports: NoGoError when no package has Go files,
      otherwise every package with Go files once, each with its first .go file. */
  ghost predicate Reported(m: map<string, Package>, pr: Reader, e: SelectError) {
    var withGo := WithGo(m);
    if |withGo.Keys| == 0 then e == NoGoError(pr.dir)
    else
      e.MultiplePackageError? && e.dir == pr.dir &&
      |e.packages| == |e.files| == |withGo.Keys| &&
      (forall i :: 0 <= i < |e.packages| ==>
         e.packages[i] in withGo && e.files[i] == FirstGoFile(withGo[e.packages[i]].files)) &&
      (forall i, j :: 0 <= i < j < |e.packages| ==> e.packages[i] != e.packages[j])
  }

  lemma SingletonKey(s: set<string>, a: string, b: string)
    requires |s| == 1 && a in s && b in s
    ensures a == b
  {
    if a != b {
      assert {a, b} <= s;
      assert |{a, b}| == 2;
      SubsetCard({a, b}, s);
    }
  }

  lemma {:induction false} SubsetCard(a: set<string>, b: set<string>)
    requires a <= b
    ensures |a| <= |b|
    decreases |a|
  {
    if a != {} {
      var x :| x in a;
      SubsetCard(a - {x}, b - {x});
    }
  }

  /** The packages with Go files, collected in map iteration order. */
  method PackagesWithGo(m: map<string, Package>) returns (r: map<string, Package>)
    ensures r == WithGo(m)
  {
    r := map[];
    var rest := m.Keys;
    while rest != {}
      invariant rest <= m.Keys
      invariant forall n :: n in r <==> n in m && n !in rest && HasGo(m[n])
      invariant forall n :: n in r ==> r[n] == m[n]
      decreases |rest|
    {
      var name :| name in rest;
      if HasGo(m[name]) {
        r := r[name := m[name]];
      }
      rest := rest - {name};
    }
  }

  /** The error listing of selectPackage: every package with Go files once, in map
      iteration order, with its first .go file. */
  method ListPackages(withGo: map<string, Package>) returns (packages: seq<string>, files: seq<string>)
    ensures |packages| == |files| == |withGo.Keys|
    ensures forall i :: 0 <= i < |packages| ==>
              packages[i] in withGo && files[i] == FirstGoFile(withGo[packages[i]].files)
    ensures forall i, j :: 0 <= i < j < |packages| ==> packages[i] != packages[j]
  {
    packages, files := [], [];
    var rest := withGo.Keys;
    while rest != {}
      invariant rest <= withGo.Keys
      invariant |packages| == |files| && |packages| + |rest| == |withGo.Keys|
      invariant forall i :: 0 <= i < |packages| ==>
                  packages[i] in withGo && packages[i] !in rest && files[i] == FirstGoFile(withGo[packages[i]].files)
      invariant forall i, j :: 0 <= i < j < |packages| ==> packages[i] != packages[j]
      decreases |rest|
    {
      var name :| name in rest;
      packages := packages + [name];
      files := files + [FirstGoFile(withGo[name].files)];
      rest := rest - {name};
    }
  }

  /** selectPackage: the selected package, or the error it reports. */
  method SelectPackage(pr: Reader, packageMap: map<string, Package>) returns (r: Result<Package, SelectError>)
    ensures r.Ok? <==> Selected(packageMap, pr).Some?
    ensures r.Ok? ==> r.value == Selected(packageMap, pr).value
    ensures r.Err? ==> Reported(packageMap, pr, r.error)
  {
    var packagesWithGo := PackagesWithGo(packageMap);
    if |packagesWithGo.Keys| == 0 {
      return Err(NoGoError(pr.dir));
    }
    if |packagesWithGo.Keys| == 1 {
      var name :| name in packagesWithGo;
      ghost var n :| n in packagesWithGo && Selected(packageMap, pr) == Some(packagesWithGo[n]);
      SingletonKey(packagesWithGo.Keys, name, n);
      return Ok(packagesWithGo[name]);
    }
    var def := DefaultPackageName(pr);
    if def in packagesWithGo {
      return Ok(packagesWithGo[def]);
    }
    var packages, files := ListPackages(packagesWithGo);
    return Err(MultiplePackageError(pr.dir, packages, files));
  }

  /** The selected package is a package of the map with Go files: the only one, or
      the one named after the directory; nothing is selected when no package has Go
      files, or when several do and none has the expected name. */
  lemma SelectedIs(m: map<string, Package>, pr: Reader)
    ensures Selected(m, pr).Some? ==>
              exists n :: n in m && m[n] == Selected(m, pr).value && HasGo(m[n]) &&
                (n == DefaultPackageName(pr) || forall n' :: n' in m && HasGo(m[n']) ==> n' == n)
    ensures Selected(m, pr).None? <==>
              (forall n :: n in m ==> !HasGo(m[n])) ||
              (DefaultPackageName(pr) !in WithGo(m) && |WithGo(m).Keys| >= 2)
  {
    var withGo := WithGo(m);
    if |withGo.Keys| == 1 {
      var n :| n in withGo && Selected(m, pr) == Some(withGo[n]);
      forall n' | n' in m && HasGo(m[n'])
        ensures n' == n
      {
        SingletonKey(withGo.Keys, n, n');
      }
    } else if |withGo.Keys| == 0 {
    } else {
      var n :| n in withGo.Keys;
      assert HasGo(m[n]);
    }
  }

  // ===========================================================================
  // findPackage
  // ===========================================================================

  /** The other files recorded in the selected package: those that could be
      classified, each with the cgo flag of the package's .go files. */
  function OtherAdded(otherFiles: seq<string>, otherInfos: map<string, FileInfo>, cgo: bool): seq<AddedFile> {
    if otherFiles == [] then []
    else
      var name := otherFiles[|otherFiles| - 1];
      OtherAdded(otherFiles[..|otherFiles| - 1], otherInfos, cgo) +
        (if name in otherInfos then [AddedFile(name, otherInfos[name], cgo)] else [])
  }

  /** The package findPackage returns for a directory listing (None when the directory
      cannot be read or no package is selected). */
  ghost function FoundPackage(pr: Reader, listing: Option<seq<DirEntry>>,
                              goInfos: map<string, FileInfo>, otherInfos: map<string, FileInfo>): Option<Package>
  {
    match listing
    case None => None
    case Some(entries) =>
      var accepted := Accepted(GoFiles(entries), goInfos);
      match Selected(PackageMap(accepted, pr.dir), pr)
      case None => None
      case Some(p) => Some(p.(files := p.files + OtherAdded(OtherFiles(entries), otherInfos, AnyCgo(accepted))))
  }

  /** The last loop of findPackage: record the other files in the selected package. */
  method AddOtherFiles(pkg: Package, otherFiles: seq<string>, otherInfos: map<string, FileInfo>, cgo: bool)
    returns (r: Package)
    ensures r == pkg.(files := pkg.files + OtherAdded(otherFiles, otherInfos, cgo))
  {
    r := pkg;
    for i := 0 to |otherFiles|
      invariant r == pkg.(files := pkg.files + OtherAdded(otherFiles[..i], otherInfos, cgo))
    {
      assert otherFiles[..i + 1][..i] == otherFiles[..i];
      var file := otherFiles[i];
      if file !in otherInfos {
        continue;
      }
      r := r.(files := r.files + [AddedFile(file, otherInfos[file], cgo)]);
    }
    assert otherFiles[..|otherFiles|] == otherFiles;
  }

  /** findPackage: read the directory (None when it cannot be read), group its .go
      files into packages, select one, and record the other files in it. */
  method FindPackage(pr: Reader, listing: Option<seq<DirEntry>>,
                     goInfos: map<string, FileInfo>, otherInfos: map<string, FileInfo>)
    returns (r: Option<Package>)
    ensures r == FoundPackage(pr, listing, goInfos, otherInfos)
  {
    if listing.None? {
      return None;
    }
    var goFiles, otherFiles := Partition(listing.value);
    var packageMap, cgo := GroupGoFiles(pr, goFiles, goInfos);
    var selected := SelectPackage(pr, packageMap);
    if selected.Err? {
      return None;
    }
    var pkg := AddOtherFiles(selected.value, otherFiles, otherInfos, cgo);
    return Some(pkg);
  }

  /** A package findPackage returns comes from a readable directory, lives in that
      directory, is not "documentation", has Go files, and holds that package's .go
      files in listing order followed by the classified other files, each carrying
      whether any accepted .go file uses cgo. */
  lemma FoundPackageIs(pr: Reader, listing: Option<seq<DirEntry>>,
                       goInfos: map<string, FileInfo>, otherInfos: map<string, FileInfo>)
    ensures FoundPackage(pr, listing, goInfos, otherInfos).Some? ==>
              var p := FoundPackage(pr, listing, goInfos, otherInfos).value;
              var accepted := Accepted(GoFiles(listing.value), goInfos);
              listing.Some? && p.dir == pr.dir && p.name != "documentation" && HasGo(p) &&
              p.files == FilesOf(accepted, p.name) + OtherAdded(OtherFiles(listing.value), otherInfos, AnyCgo(accepted))
  {
    if listing.Some? {
      SelectedPackageIs(GoFiles(listing.value), goInfos, pr);
      var accepted := Accepted(GoFiles(listing.value), goInfos);
      var sel := Selected(PackageMap(accepted, pr.dir), pr);
      if sel.Some? {
        ExtendHasGo(sel.value, OtherAdded(OtherFiles(listing.value), otherInfos, AnyCgo(accepted)));
      }
    }
  }

  /** The package selectPackage picks from the .go files lives in the directory, is not
      "documentation", has Go files and holds exactly its accepted .go files. */
  lemma SelectedPackageIs(goFiles: seq<string>, goInfos: map<string, FileInfo>, pr: Reader)
    ensures var accepted := Accepted(goFiles, goInfos);
            var sel := Selected(PackageMap(accepted, pr.dir), pr);
            sel.Some? ==>
              sel.value.dir == pr.dir && sel.value.name != "documentation" && HasGo(sel.value) &&
              sel.value.files == FilesOf(accepted, sel.value.name)
  {
    var accepted := Accepted(goFiles, goInfos);
    var m := PackageMap(accepted, pr.dir);
    SelectedIs(m, pr);
    PackageMapContents(accepted, pr.dir);
    NoDocumentationPackage(goFiles, goInfos, pr.dir);
  }

  /** Recording more files keeps a package's Go files. */
  lemma ExtendHasGo(p: Package, extra: seq<AddedFile>)
    requires HasGo(p)
    ensures HasGo(p.(files := p.files + extra))
  {
    var i :| 0 <= i < |p.files| && IsGoSource(p.files[i]);
    assert (p.files + extra)[i] == p.files[i];
  }

  // ===========================================================================
  // Walk
  // ===========================================================================

  /** The packages found in a sequence of directories, in order. */
  ghost function FoundAll(ds: seq<DirTree>, repoRoot: string, goPrefix: string): seq<Package> {
    if ds == [] then []
    else FoundIn(ds[0], repoRoot, goPrefix) + FoundAll(ds[1..], repoRoot, goPrefix)
  }

  lemma {:induction false} FoundAllAppend(a: seq<DirTree>, b: seq<DirTree>, repoRoot: string, goPrefix: string)
    ensures FoundAll(a + b, repoRoot, goPrefix) == FoundAll(a, repoRoot, goPrefix) + FoundAll(b, repoRoot, goPrefix)
  {
    if a == [] {
      assert a + b == b;
    } else {
      assert (a + b)[0] == a[0];
      assert (a + b)[1..] == a[1..] + b;
      FoundAllAppend(a[1..], b, repoRoot, goPrefix);
    }
  }

  /** Walk calls its callback once for each directory it enters whose package is found,
      in visiting order, and for no other directory. */
  lemma {:induction false} WalkFound(t: DirTree, repoRoot: string, goPrefix: string)
    ensures WalkPackages(t, repoRoot, goPrefix) == FoundAll(Visited(t), repoRoot, goPrefix)
    ensures forall d :: d in Visited(t) ==> !SkipDir(Base(d.path))
    decreases t
  {
    if !SkipDir(Base(t.path)) {
      WalkForestFound(t.subdirs, repoRoot, goPrefix);
      FoundAllAppend([t], VisitedForest(t.subdirs), repoRoot, goPrefix);
      assert ([t] + VisitedForest(t.subdirs))[1..] == VisitedForest(t.subdirs);
    }
  }

  lemma {:induction false} WalkForestFound(ts: seq<DirTree>, repoRoot: string, goPrefix: string)
    ensures WalkForest(ts, repoRoot, goPrefix) == FoundAll(VisitedForest(ts), repoRoot, goPrefix)
    ensures forall d :: d in VisitedForest(ts) ==> !SkipDir(Base(d.path))
    decreases ts
  {
    if ts != [] {
      WalkFound(ts[0], repoRoot, goPrefix);
      WalkForestFound(ts[1..], repoRoot, goPrefix);
      FoundAllAppend(Visited(ts[0]), VisitedForest(ts[1..]), repoRoot, goPrefix);
    }
  }

  /** Each package in a list of found packages has Go files and comes from one of the
      directories, at most one per directory. */
  lemma {:induction false} FoundAllFrom(ds: seq<DirTree>, repoRoot: string, goPrefix: string)
    ensures |FoundAll(ds, repoRoot, goPrefix)| <= |ds|
    ensures forall p :: p in FoundAll(ds, repoRoot, goPrefix) ==>
              HasGo(p) && exists d :: d in ds && p.dir == d.path
  {
    if ds != [] {
      var d := ds[0];
      FoundAllFrom(ds[1..], repoRoot, goPrefix);
      FoundPackageIs(Reader(repoRoot, goPrefix, d.path), d.listing, d.goInfos, d.otherInfos);
      forall p | p in FoundAll(ds[1..], repoRoot, goPrefix)
        ensures exists d' :: d' in ds && p.dir == d'.path
      {
        var d' :| d' in ds[1..] && p.dir == d'.path;
        assert d' in ds;
      }
    }
  }

  /** Walk enters no directory whose base name is skipped (nor anything below it), calls
      its callback at most once per directory it enters, and passes only packages with
      Go files that live in a directory it entered. */
  lemma WalkCalls(t: DirTree, repoRoot: string, goPrefix: string)
    ensures forall d :: d in Visited(t) ==> !SkipDir(Base(d.path))
    ensures SkipDir(Base(t.path)) ==> WalkPackages(t, repoRoot, goPrefix) == []
    ensures |WalkPackages(t, repoRoot, goPrefix)| <= |Visited(t)|
    ensures forall p :: p in WalkPackages(t, repoRoot, goPrefix) ==>
              HasGo(p) && exists d :: d in Visited(t) && p.dir == d.path
  {
    WalkFound(t, repoRoot, goPrefix);
    FoundAllFrom(Visited(t), repoRoot, goPrefix);
  }
}
