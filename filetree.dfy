/**
 * An abstract file system and the directory-creation routines of
 * helpfuncs.py (make_nested_folders, create_csv, make_file_structure),
 * stated as functions from the old state to the new state and an outcome.
 *
 * A path is the sequence of its folder names, relative to the working
 * directory; the working directory itself is the empty path. A Python
 * exception raised by an os call is a Fail outcome, and, as the uncaught
 * exception would, it ends the routine with whatever was done before it.
 */
module FileTree {
  import opened Wrappers

  type Path = seq<string>

  /** The exceptions the os calls used here can raise. */
  datatype FsError =
    | FileExists(path: Path)     // FileExistsError from os.mkdir
    | FileNotFound(path: Path)   // FileNotFoundError: the parent directory is missing
    | IsADirectory(path: Path)   // open on a directory: IsADirectoryError on POSIX, PermissionError on Windows

  /** The directories that exist and the files that exist, with their contents. */
  datatype FsState = FsState(dirs: set<Path>, files: map<Path, string>)

  type Step = (FsState, Outcome<FsError>)

  function Parent(p: Path): Path
    requires p != []
  {
    p[..|p| - 1]
  }

  /**
   * What every real file system satisfies: the working directory exists,
   * every directory's parent is a directory, and every file sits in a
   * directory and is not itself a directory.
   */
  predicate Valid(fs: FsState) {
    && [] in fs.dirs
    && (forall p :: p in fs.dirs && p != [] ==> Parent(p) in fs.dirs)
    && (forall p :: p in fs.files ==> p != [] && Parent(p) in fs.dirs && p !in fs.dirs)
  }

  /** Every file of fs' that fs lacks is one of ps and is empty. */
  predicate AddsOnly(fs: FsState, fs': FsState, ps: set<Path>) {
    && fs'.files.Keys <= fs.files.Keys + ps
    && forall q :: q in fs'.files && q !in fs.files ==> fs'.files[q] == ""
  }

  /** Every file keeps its contents from fs to fs'. */
  predicate KeepsFiles(fs: FsState, fs': FsState) {
    forall q :: q in fs.files ==> q in fs'.files && fs'.files[q] == fs.files[q]
  }

  /** os.mkdir(p). */
  function Mkdir(fs: FsState, p: Path): (r: Step)
    ensures Valid(fs) ==> Valid(r.0)
    ensures r.0.files == fs.files && fs.dirs <= r.0.dirs
    ensures r.1.Pass? <==> p !in fs.dirs && p !in fs.files && p != [] && Parent(p) in fs.dirs
    ensures r.1.Pass? ==> r.0.dirs == fs.dirs + {p}
    ensures r.1.Fail? ==> r.0 == fs
  {
    if p in fs.dirs || p in fs.files then (fs, Fail(FileExists(p)))
    else if p == [] || Parent(p) !in fs.dirs then (fs, Fail(FileNotFound(p)))
    else (fs.(dirs := fs.dirs + {p}), Pass)
  }

  /** open(p, 'w'): creates the file, or truncates it when it exists. */
  function OpenWrite(fs: FsState, p: Path): (r: Step)
    ensures Valid(fs) ==> Valid(r.0)
    ensures r.0.dirs == fs.dirs
    ensures r.1.Pass? <==> p !in fs.dirs && p != [] && Parent(p) in fs.dirs
    ensures r.1.Pass? ==> r.0.files == fs.files[p := ""]
    ensures r.1.Fail? ==> r.0 == fs
  {
    if p in fs.dirs then (fs, Fail(IsADirectory(p)))
    else if p == [] || Parent(p) !in fs.dirs then (fs, Fail(FileNotFound(p)))
    else (fs.(files := fs.files[p := ""]), Pass)
  }

  /** open(p, 'a'): creates the file when it is absent and never touches an existing one. */
  function OpenAppend(fs: FsState, p: Path): (r: Step)
    ensures Valid(fs) ==> Valid(r.0)
    ensures r.0.dirs == fs.dirs && KeepsFiles(fs, r.0)
    ensures r.1.Pass? <==> p !in fs.dirs && p != [] && Parent(p) in fs.dirs
    ensures r.1.Pass? ==> r.0.files.Keys == fs.files.Keys + {p}
    ensures r.1.Pass? && p !in fs.files ==> r.0.files[p] == ""
    ensures r.1.Fail? ==> r.0 == fs
  {
    if p in fs.dirs then (fs, Fail(IsADirectory(p)))
    else if p == [] || Parent(p) !in fs.dirs then (fs, Fail(FileNotFound(p)))
    else if p in fs.files then (fs, Pass)
    else (fs.(files := fs.files[p := ""]), Pass)
  }

  // ----- make_nested_folders -----

  /**
   * The loop of make_nested_folders from its (i+1)-th pass on: build the
   * next prefix; leave it alone when it is a directory, create it otherwise.
   */
  function WalkFrom(fs: FsState, folders: Path, i: nat): Step
    requires i <= |folders|
    decreases |folders| - i
  {
    if i == |folders| then (fs, Pass)
    else
      var p := folders[..i + 1];
      if p in fs.dirs then WalkFrom(fs, folders, i + 1)
      else
        var made := Mkdir(fs, p);
        if made.1.Fail? then made else WalkFrom(made.0, folders, i + 1)
  }

  /** make_nested_folders(path), with the path already split into its folders. */
  function MakeNestedFolders(fs: FsState, folders: Path): Step {
    WalkFrom(fs, folders, 0)
  }

  /** The prefixes of folders with lo to hi folders. */
  function Prefixes(folders: Path, lo: nat, hi: nat): set<Path> {
    set k: nat | lo <= k <= hi && k <= |folders| :: folders[..k]
  }

  /** The length of the shortest prefix, from k folders on, that is a file; |folders| + 1 when there is none. */
  function FirstFileFrom(files: map<Path, string>, folders: Path, k: nat): (b: nat)
    requires 1 <= k <= |folders| + 1
    ensures k <= b <= |folders| + 1
    ensures b <= |folders| ==> folders[..b] in files
    ensures forall j :: k <= j < b ==> folders[..j] !in files
    decreases |folders| + 1 - k
  {
    if k == |folders| + 1 || folders[..k] in files then k
    else FirstFileFrom(files, folders, k + 1)
  }

  /** No prefix of dir is a file. */
  predicate NoFilePrefix(files: map<Path, string>, dir: Path) {
    forall k :: 1 <= k <= |dir| ==> dir[..k] !in files
  }

  lemma PrefixesFirst(folders: Path, lo: nat, hi: nat)
    requires lo <= hi <= |folders|
    ensures Prefixes(folders, lo, hi) == {folders[..lo]} + Prefixes(folders, lo + 1, hi)
  {
  }

  lemma PrefixesEmpty(folders: Path, lo: nat, hi: nat)
    requires hi < lo
    ensures Prefixes(folders, lo, hi) == {}
  {
  }

  /**
   * What the walk from the (i+1)-th pass does to fs, ending in r: it keeps
   * every file, creates exactly the missing prefixes up to the first prefix
   * that is a file, and stops there with FileExistsError; with no such
   * prefix it succeeds.
   */
  predicate WalkDone(fs: FsState, folders: Path, i: nat, r: Step)
    requires i <= |folders|
  {
    var b := FirstFileFrom(fs.files, folders, i + 1);
    && Valid(r.0) && r.0.files == fs.files
    && r.0.dirs == fs.dirs + Prefixes(folders, i + 1, b - 1)
    && r.1 == (if b <= |folders| then Fail(FileExists(folders[..b])) else Pass)
  }

  /** The walk from the (i+1)-th pass, once the first i folders are a directory, does what WalkDone says. */
  lemma {:induction false} WalkEffect(fs: FsState, folders: Path, i: nat)
    requires Valid(fs) && i <= |folders| && folders[..i] in fs.dirs
    ensures WalkDone(fs, folders, i, WalkFrom(fs, folders, i))
    decreases |folders| - i
  {
    if i == |folders| {
      PrefixesEmpty(folders, i + 1, FirstFileFrom(fs.files, folders, i + 1) - 1);
    } else {
      var p := folders[..i + 1];
      if p in fs.dirs {
        WalkEffect(fs, folders, i + 1);
        WalkPastDir(fs, folders, i);
      } else if p in fs.files {
        WalkAtFile(fs, folders, i);
      } else {
        assert Parent(p) == folders[..i];
        var fs' := Mkdir(fs, p).0;
        WalkEffect(fs', folders, i + 1);
        WalkPastNew(fs, folders, i);
      }
    }
  }

  /** A pass over a prefix that is already a directory. */
  lemma WalkPastDir(fs: FsState, folders: Path, i: nat)
    requires Valid(fs) && i < |folders| && folders[..i + 1] in fs.dirs
    requires WalkDone(fs, folders, i + 1, WalkFrom(fs, folders, i + 1))
    ensures WalkDone(fs, folders, i, WalkFrom(fs, folders, i))
  {
    var b := FirstFileFrom(fs.files, folders, i + 1);
    assert b == FirstFileFrom(fs.files, folders, i + 2);
    PrefixesFirst(folders, i + 1, b - 1);
  }

  /** A pass over a prefix that is a file: os.mkdir raises FileExistsError. */
  lemma WalkAtFile(fs: FsState, folders: Path, i: nat)
    requires Valid(fs) && i < |folders| && folders[..i + 1] in fs.files
    ensures WalkDone(fs, folders, i, WalkFrom(fs, folders, i))
  {
    PrefixesEmpty(folders, i + 1, i);
  }

  /** A pass over a missing prefix whose parent is a directory: os.mkdir creates it. */
  lemma WalkPastNew(fs: FsState, folders: Path, i: nat)
    requires Valid(fs) && i < |folders| && folders[..i] in fs.dirs
    requires folders[..i + 1] !in fs.dirs && folders[..i + 1] !in fs.files
    requires var fs' := fs.(dirs := fs.dirs + {folders[..i + 1]});
      WalkDone(fs', folders, i + 1, WalkFrom(fs', folders, i + 1))
    ensures WalkDone(fs, folders, i, WalkFrom(fs, folders, i))
  {
    var p := folders[..i + 1];
    assert Parent(p) == folders[..i];
    var b := FirstFileFrom(fs.files, folders, i + 1);
    assert b == FirstFileFrom(fs.files, folders, i + 2);
    PrefixesFirst(folders, i + 1, b - 1);
  }

  /**
   * make_nested_folders keeps every file and every directory, creates the
   * missing prefixes of the path in order up to the first prefix that is a
   * file, and fails there with FileExistsError; it never fails for a
   * missing parent, since each prefix is created after the one before it.
   */
  lemma NestedFoldersEffect(fs: FsState, folders: Path)
    requires Valid(fs)
    ensures WalkDone(fs, folders, 0, MakeNestedFolders(fs, folders))
  {
    assert folders[..0] == [];
    WalkEffect(fs, folders, 0);
  }

  /** make_nested_folders succeeds exactly when no prefix of the path is a file, and then every prefix is a directory. */
  lemma NestedFoldersPass(fs: FsState, folders: Path)
    requires Valid(fs)
    ensures var r := MakeNestedFolders(fs, folders);
      && (r.1.Pass? <==> NoFilePrefix(fs.files, folders))
      && (r.1.Pass? ==> forall k :: 0 <= k <= |folders| ==> folders[..k] in r.0.dirs)
  {
    NestedFoldersEffect(fs, folders);
    var r := MakeNestedFolders(fs, folders);
    if r.1.Pass? {
      forall k | 0 <= k <= |folders| ensures folders[..k] in r.0.dirs {
        if k == 0 {
          assert folders[..k] == [];
        } else {
          assert folders[..k] in Prefixes(folders, 1, |folders|);
        }
      }
    }
  }

  /** Running make_nested_folders again after it succeeded changes nothing. */
  lemma NestedFoldersIdempotent(fs: FsState, folders: Path)
    requires Valid(fs) && MakeNestedFolders(fs, folders).1.Pass?
    ensures var fs' := MakeNestedFolders(fs, folders).0;
      MakeNestedFolders(fs', folders) == (fs', Pass)
  {
    var fs' := MakeNestedFolders(fs, folders).0;
    NestedFoldersEffect(fs, folders);
    NestedFoldersEffect(fs', folders);
    assert fs'.dirs + Prefixes(folders, 1, |folders|) == fs'.dirs;
  }

  // ----- create_csv -----

  /** create_csv(dir, name): create the directory path when it is missing, then the file when it is missing. */
  function CreateCsv(fs: FsState, dir: Path, name: string): Step {
    var made := if dir in fs.dirs then (fs, Pass) else MakeNestedFolders(fs, dir);
    if made.1.Fail? then made
    else
      var p := dir + [name];
      if p in made.0.files then (made.0, Pass) else OpenWrite(made.0, p)
  }

  /** A path one folder longer than dir is not a prefix of dir. */
  lemma NotAPrefix(dir: Path, name: string)
    ensures dir + [name] !in Prefixes(dir, 1, |dir|)
  {
    forall k: nat | k <= |dir| ensures dir[..k] != dir + [name] {
      assert |dir[..k]| < |dir + [name]|;
    }
  }

  lemma PrefixesGrow(folders: Path, lo: nat, hi: nat, hi': nat)
    requires hi <= hi'
    ensures Prefixes(folders, lo, hi) <= Prefixes(folders, lo, hi')
  {
  }

  /**
   * create_csv never recreates or truncates a file: every file keeps its
   * contents, and the only file it can add is the one it was asked for,
   * empty. It only adds directories, all of them prefixes of dir. It
   * succeeds exactly when no prefix of dir is a file and the new path is
   * not a directory, and then both the directory and the file exist.
   */
  lemma CreateCsvEffect(fs: FsState, dir: Path, name: string)
    requires Valid(fs)
    ensures var r := CreateCsv(fs, dir, name);
      var p := dir + [name];
      && Valid(r.0) && KeepsFiles(fs, r.0)
      && r.0.files.Keys <= fs.files.Keys + {p}
      && (p in r.0.files && p !in fs.files ==> r.0.files[p] == "")
      && fs.dirs <= r.0.dirs <= fs.dirs + Prefixes(dir, 1, |dir|)
      && (r.1.Pass? <==> NoFilePrefix(fs.files, dir) && p !in fs.dirs)
      && (r.1.Pass? ==> dir in r.0.dirs && p in r.0.files)
  {
    var p := dir + [name];
    NotAPrefix(dir, name);
    if dir in fs.dirs {
      forall k | 1 <= k <= |dir| ensures dir[..k] !in fs.files {
        DirPrefix(fs, dir, k);
      }
    } else {
      NestedFoldersEffect(fs, dir);
      NestedFoldersPass(fs, dir);
      PrefixesGrow(dir, 1, FirstFileFrom(fs.files, dir, 1) - 1, |dir|);
      assert Parent(p) == dir;
      assert dir[..|dir|] == dir;
    }
  }

  /** Every prefix of a directory is a directory, hence not a file. */
  lemma {:induction false} DirPrefix(fs: FsState, dir: Path, k: nat)
    requires Valid(fs) && dir in fs.dirs && k <= |dir|
    ensures dir[..k] in fs.dirs && dir[..k] !in fs.files
    decreases |dir| - k
  {
    if k < |dir| {
      DirPrefix(fs, dir, k + 1);
      assert Parent(dir[..k + 1]) == dir[..k];
    } else {
      assert dir[..k] == dir;
    }
  }

  /** Calling create_csv a second time changes nothing. */
  lemma CreateCsvIdempotent(fs: FsState, dir: Path, name: string)
    requires Valid(fs) && CreateCsv(fs, dir, name).1.Pass?
    ensures var fs' := CreateCsv(fs, dir, name).0;
      CreateCsv(fs', dir, name) == (fs', Pass)
  {
    CreateCsvEffect(fs, dir, name);
  }

  // ----- make_file_structure -----

  const FuelTypes: seq<string> := ["diesel", "regular", "midgrade", "premium"]

  function CsvName(fuel: string): string {
    fuel + ".csv"
  }

  /** The default of make_file_structure's fp argument. */
  const DefaultFp: Path := ["fuel_prices"]

  function StationsFile(zipcode: string): string {
    "_gas_stations_" + zipcode + ".txt"
  }

  /** create_csv(dir, fuel + '.csv') for each fuel in order, until one raises. */
  function CreateAll(fs: FsState, dir: Path, fuels: seq<string>): Step
    decreases |fuels|
  {
    if fuels == [] then (fs, Pass)
    else
      var r := CreateCsv(fs, dir, CsvName(fuels[0]));
      if r.1.Fail? then r else CreateAll(r.0, dir, fuels[1..])
  }

  /** make_file_structure(zipcode, fp), with fp split into its folders. */
  function MakeFileStructure(fs: FsState, zipcode: string, fp: Path := DefaultFp): Step {
    var path := fp + [zipcode];
    var made := CreateAll(fs, path, FuelTypes);
    if made.1.Fail? then made
    else OpenAppend(made.0, path + [StationsFile(zipcode)])
  }

  /** None of the files dir + [name] for name in names is a directory. */
  predicate NoDirNamed(dirs: set<Path>, dir: Path, names: seq<string>) {
    forall k :: 0 <= k < |names| ==> dir + [names[k]] !in dirs
  }

  function CsvNames(fuels: seq<string>): (names: seq<string>)
    ensures |names| == |fuels|
    ensures forall k :: 0 <= k < |fuels| ==> names[k] == CsvName(fuels[k])
  {
    if fuels == [] then [] else [CsvName(fuels[0])] + CsvNames(fuels[1..])
  }

  /**
   * The create_csv calls one after another keep every file and only add
   * prefixes of dir as directories; they succeed exactly when no prefix
   * of dir is a file and no csv path is a directory, and then dir and
   * every csv file exist.
   */
  lemma {:induction false} CreateAllEffect(fs: FsState, dir: Path, fuels: seq<string>)
    requires Valid(fs) && fuels != []
    ensures var r := CreateAll(fs, dir, fuels);
      && Valid(r.0) && KeepsFiles(fs, r.0)
      && fs.dirs <= r.0.dirs <= fs.dirs + Prefixes(dir, 1, |dir|)
      && (r.1.Pass? <==> NoFilePrefix(fs.files, dir) && NoDirNamed(fs.dirs, dir, CsvNames(fuels)))
      && (r.1.Pass? ==> dir in r.0.dirs && forall k :: 0 <= k < |fuels| ==> dir + [CsvName(fuels[k])] in r.0.files)
    decreases |fuels|
  {
    CreateCsvEffect(fs, dir, CsvName(fuels[0]));
    var r1 := CreateCsv(fs, dir, CsvName(fuels[0]));
    if r1.1.Pass? && |fuels| > 1 {
      var rest := fuels[1..];
      CreateAllEffect(r1.0, dir, rest);
      NoFilePrefixKept(fs, r1.0, dir);
      NoDirNamedKept(fs.dirs, r1.0.dirs, dir, CsvNames(fuels));
      assert CsvNames(rest) == CsvNames(fuels)[1..];
      var r := CreateAll(r1.0, dir, rest);
      if r.1.Pass? {
        forall k | 0 <= k < |fuels| ensures dir + [CsvName(fuels[k])] in r.0.files {
          if k > 0 {
            assert fuels[k] == rest[k - 1];
          }
        }
      }
    }
  }

  /** The csv paths dir + [fuel + '.csv'] for the given fuels. */
  function CsvPaths(dir: Path, fuels: seq<string>): set<Path> {
    set k | 0 <= k < |fuels| :: dir + [CsvName(fuels[k])]
  }

  lemma CsvPathsCons(dir: Path, fuels: seq<string>)
    requires fuels != []
    ensures CsvPaths(dir, fuels) == {dir + [CsvName(fuels[0])]} + CsvPaths(dir, fuels[1..])
  {
    forall q | q in CsvPaths(dir, fuels) ensures q in {dir + [CsvName(fuels[0])]} + CsvPaths(dir, fuels[1..]) {
      var k :| 0 <= k < |fuels| && q == dir + [CsvName(fuels[k])];
      if k > 0 {
        assert fuels[1..][k - 1] == fuels[k];
      }
    }
    forall q | q in CsvPaths(dir, fuels[1..]) ensures q in CsvPaths(dir, fuels) {
      var k :| 0 <= k < |fuels[1..]| && q == dir + [CsvName(fuels[1..][k])];
      assert fuels[1..][k] == fuels[k + 1];
    }
  }

  /** Two steps that each add only empty files of their own set add only empty files of the union. */
  lemma AddsOnlyThen(fs: FsState, fs1: FsState, fs2: FsState, ps: set<Path>, qs: set<Path>)
    requires AddsOnly(fs, fs1, ps) && AddsOnly(fs1, fs2, qs) && KeepsFiles(fs1, fs2)
    ensures AddsOnly(fs, fs2, ps + qs)
  {
  }

  /**
   * The create_csv calls one after another create no file but the csv
   * files they were asked for, and each of those they create is empty.
   */
  lemma {:induction false} CreateAllAdds(fs: FsState, dir: Path, fuels: seq<string>)
    requires Valid(fs)
    ensures AddsOnly(fs, CreateAll(fs, dir, fuels).0, CsvPaths(dir, fuels))
    decreases |fuels|
  {
    if fuels != [] {
      var p := dir + [CsvName(fuels[0])];
      CreateCsvEffect(fs, dir, CsvName(fuels[0]));
      CsvPathsCons(dir, fuels);
      var r1 := CreateCsv(fs, dir, CsvName(fuels[0]));
      assert AddsOnly(fs, r1.0, {p});
      if r1.1.Pass? {
        var rest := fuels[1..];
        CreateAllAdds(r1.0, dir, rest);
        if rest != [] {
          CreateAllEffect(r1.0, dir, rest);
        }
        AddsOnlyThen(fs, r1.0, CreateAll(r1.0, dir, rest).0, {p}, CsvPaths(dir, rest));
      }
    }
  }

  /** Once create_csv succeeded, no prefix of dir is a file, before or after. */
  lemma NoFilePrefixKept(fs: FsState, fs': FsState, dir: Path)
    requires Valid(fs') && dir in fs'.dirs && KeepsFiles(fs, fs')
    ensures NoFilePrefix(fs.files, dir) && NoFilePrefix(fs'.files, dir)
  {
    forall k | 1 <= k <= |dir| ensures dir[..k] !in fs'.files && dir[..k] !in fs.files {
      DirPrefix(fs', dir, k);
    }
  }

  /** Adding prefixes of dir as directories does not turn any dir + [name] into a directory. */
  lemma NoDirNamedKept(dirs: set<Path>, dirs': set<Path>, dir: Path, names: seq<string>)
    requires dirs <= dirs' <= dirs + Prefixes(dir, 1, |dir|)
    ensures NoDirNamed(dirs, dir, names) <==> NoDirNamed(dirs', dir, names)
  {
    forall k | 0 <= k < |names| ensures dir + [names[k]] in dirs <==> dir + [names[k]] in dirs' {
      NotAPrefix(dir, names[k]);
    }
  }

  /**
   * make_file_structure keeps every file; it succeeds exactly when no
   * prefix of fp + [zipcode] is a file and none of the five files' paths
   * is a directory, and then the zip-code folder, the four fuel csv files
   * and the gas-station list exist. The only directories it adds are
   * prefixes of fp + [zipcode], and the only files it adds are those five,
   * each of them empty.
   */
  lemma MakeFileStructureEffect(fs: FsState, zipcode: string, fp: Path)
    requires Valid(fs)
    ensures var r := MakeFileStructure(fs, zipcode, fp);
      var path := fp + [zipcode];
      && Valid(r.0) && KeepsFiles(fs, r.0)
      && fs.dirs <= r.0.dirs <= fs.dirs + Prefixes(path, 1, |path|)
      && AddsOnly(fs, r.0, CsvPaths(path, FuelTypes) + {path + [StationsFile(zipcode)]})
      && (r.1.Pass? <==>
            && NoFilePrefix(fs.files, path) && NoDirNamed(fs.dirs, path, CsvNames(FuelTypes))
            && path + [StationsFile(zipcode)] !in fs.dirs)
      && (r.1.Pass? ==>
            && path in r.0.dirs && path + [StationsFile(zipcode)] in r.0.files
            && forall k :: 0 <= k < |FuelTypes| ==> path + [CsvName(FuelTypes[k])] in r.0.files)
  {
    var path := fp + [zipcode];
    CreateAllEffect(fs, path, FuelTypes);
    var made := CreateAll(fs, path, FuelTypes);
    CreateAllAdds(fs, path, FuelTypes);
    NotAPrefix(path, StationsFile(zipcode));
    if made.1.Pass? {
      var stations := path + [StationsFile(zipcode)];
      assert Parent(stations) == path;
      var r := OpenAppend(made.0, stations);
      assert AddsOnly(made.0, r.0, {stations});
      AddsOnlyThen(fs, made.0, r.0, CsvPaths(path, FuelTypes), {stations});
    }
  }

  /** After the create_csv calls succeeded, running them again changes nothing. */
  lemma {:induction false} CreateAllPresent(fs: FsState, dir: Path, fuels: seq<string>)
    requires Valid(fs) && dir in fs.dirs
    requires forall k :: 0 <= k < |fuels| ==> dir + [CsvName(fuels[k])] in fs.files
    ensures CreateAll(fs, dir, fuels) == (fs, Pass)
    decreases |fuels|
  {
    if fuels != [] {
      assert dir + [CsvName(fuels[0])] in fs.files;
      CreateAllPresent(fs, dir, fuels[1..]);
    }
  }

  /** Calling make_file_structure a second time changes nothing. */
  lemma MakeFileStructureIdempotent(fs: FsState, zipcode: string, fp: Path)
    requires Valid(fs) && MakeFileStructure(fs, zipcode, fp).1.Pass?
    ensures var fs' := MakeFileStructure(fs, zipcode, fp).0;
      MakeFileStructure(fs', zipcode, fp) == (fs', Pass)
  {
    MakeFileStructureEffect(fs, zipcode, fp);
    var fs' := MakeFileStructure(fs, zipcode, fp).0;
    CreateAllPresent(fs', fp + [zipcode], FuelTypes);
  }
}
