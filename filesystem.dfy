/**
 * The file system as an object whose directory set and file map the
 * routines of helpfuncs.py update in place, one os call at a time. Each
 * method is proved to end in the state, with the outcome, that the
 * matching FileTree function gives for the state it started from; what
 * those functions promise is proved in FileTree. The three os calls take
 * their effect from FileTree, where each is defined once; the routines
 * built on them run the source's loops step by step.
 */
module FileSystemImpl {
  import opened Wrappers
  import opened FileTree

  class FileSystem {
    var dirs: set<Path>
    var files: map<Path, string>

    function State(): FsState
      reads this
    {
      FsState(dirs, files)
    }

    /** A file system holding only the working directory. */
    constructor ()
      ensures State() == FsState({[]}, map[])
      ensures Valid(State())
    {
      dirs := {[]};
      files := map[];
    }

    /** os.mkdir(p). */
    method Mkdir(p: Path) returns (o: Outcome<FsError>)
      modifies this
      ensures (State(), o) == FileTree.Mkdir(old(State()), p)
    {
      var r := FileTree.Mkdir(State(), p);
      dirs, files := r.0.dirs, r.0.files;
      o := r.1;
    }

    /** open(p, 'w').close(): creates the file, or truncates it. */
    method OpenWrite(p: Path) returns (o: Outcome<FsError>)
      modifies this
      ensures (State(), o) == FileTree.OpenWrite(old(State()), p)
    {
      var r := FileTree.OpenWrite(State(), p);
      dirs, files := r.0.dirs, r.0.files;
      o := r.1;
    }

    /** open(p, 'a').close(): creates the file when it is absent. */
    method OpenAppend(p: Path) returns (o: Outcome<FsError>)
      modifies this
      ensures (State(), o) == FileTree.OpenAppend(old(State()), p)
    {
      var r := FileTree.OpenAppend(State(), p);
      dirs, files := r.0.dirs, r.0.files;
      o := r.1;
    }

    /**
     * make_nested_folders: grow the path one folder at a time and create
     * each prefix that is not a directory yet. Each os.mkdir happens once
     * the prefix before it is a directory, so it never lacks a parent.
     */
    method MakeNestedFolders(folders: Path) returns (o: Outcome<FsError>)
      modifies this
      ensures (State(), o) == FileTree.MakeNestedFolders(old(State()), folders)
      ensures old(dirs) <= dirs && files == old(files)
      ensures o.Pass? && [] in old(dirs) ==> forall k :: 0 <= k <= |folders| ==> folders[..k] in dirs
    {
      var pathString: Path := [];
      var i := 0;
      while i < |folders|
        invariant i <= |folders| && pathString == folders[..i]
        invariant WalkFrom(State(), folders, i) == FileTree.MakeNestedFolders(old(State()), folders)
        invariant old(dirs) <= dirs && files == old(files)
        invariant [] in old(dirs) ==> forall k :: 0 <= k <= i ==> folders[..k] in dirs
      {
        pathString := pathString + [folders[i]];
        assert pathString == folders[..i + 1];
        if pathString !in dirs {
          assert [] in old(dirs) ==> Parent(pathString) in dirs by {
            assert Parent(pathString) == folders[..i];
          }
          o := Mkdir(pathString);
          if o.Fail? {
            return;
          }
        }
        i := i + 1;
      }
      o := Pass;
    }

    /** create_csv(dir, name): the missing folders first, then the file unless it exists. */
    method CreateCsv(dir: Path, name: string) returns (o: Outcome<FsError>)
      modifies this
      ensures (State(), o) == FileTree.CreateCsv(old(State()), dir, name)
    {
      if dir !in dirs {
        o := MakeNestedFolders(dir);
        if o.Fail? {
          return;
        }
      }
      var p := dir + [name];
      if p !in files {
        o := OpenWrite(p);
      } else {
        o := Pass;
      }
    }

    /** make_file_structure(zipcode, fp): the four fuel csv files, then the gas-station list. */
    method MakeFileStructure(zipcode: string, fp: Path := DefaultFp) returns (o: Outcome<FsError>)
      modifies this
      ensures (State(), o) == FileTree.MakeFileStructure(old(State()), zipcode, fp)
    {
      var path := fp + [zipcode];
      var i := 0;
      while i < |FuelTypes|
        invariant i <= |FuelTypes|
        invariant CreateAll(State(), path, FuelTypes[i..]) == CreateAll(old(State()), path, FuelTypes)
      {
        assert FuelTypes[i..][1..] == FuelTypes[i + 1..];
        o := CreateCsv(path, CsvName(FuelTypes[i]));
        if o.Fail? {
          return;
        }
        i := i + 1;
      }
      o := OpenAppend(path + [StationsFile(zipcode)]);
    }
  }
}
