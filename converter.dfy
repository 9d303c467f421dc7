/**
  The class `DatabricksConvert`: its three paths are fixed by the constructor;
  `convert` stages the input into the temporary directory and zips that
  directory into `<output_path>/<input stem>.dbc`.
 */
module Converter {
  import opened Wrappers
  import opened Paths
  import opened Notebook
  import opened Staging
  import opened Archive

  /**
    What `input_path` names. `is_file()` is true only for a regular file; for
    anything else (a directory, or a path that does not exist) the glob
    matches are listed, which is empty for a missing path.
   */
  datatype Input = RegularFile(text: string) | Directory(listing: seq<(Path, Node)>)

  /** The input root and, for a directory, every match below it are paths pathlib would build. */
  predicate ValidInput(inputPath: Path, input: Input) {
    && ValidPath(inputPath)
    && (input.Directory? ==> forall j | 0 <= j < |input.listing| :: ValidPath(input.listing[j].0))
  }

  /** The written `.dbc` archive: where it goes and its entries in the order they are written. */
  datatype Dbc = Dbc(path: Path, entries: seq<Entry>)

  /** `output_path / input_path.with_suffix(".dbc").name`; `with_suffix` raises for an empty name. */
  function ArchivePath(inputPath: Path, outputPath: Path): (r: Option<Path>)
    ensures r.Some? <==> Name(inputPath) != ""
    ensures r.Some? ==> r.value == outputPath + [Stem(Name(inputPath)) + ".dbc"]
  {
    var named := WithSuffix(inputPath, ".dbc");
    if named.None? then None else Some(Join(outputPath, [Name(named.value)]))
  }

  /**
    A root whose name contains a dot is itself a match of the recursive glob
    of the staging directory once anything was staged under it, and it is a
    directory, so reading it for the archive fails.
   */
  lemma DottedRootIsMatched(root: Path, listing: seq<(Path, Node)>, build: Builder)
    requires root != [] && '.' in Name(root)
    requires |listing| > 0 && listing[0].0 != []
    requires StageDirectory(root, listing, build).Ok?
    ensures var t := StageDirectory(root, listing, build).value;
      [Name(root)] in Matches(t) && [Name(root)] in t.dirs && [Name(root)] !in t.files
  {
    var t := StageDirectory(root, listing, build).value;
    FirstMatchWritten(root, listing, build);
    var out := StagedPath(root, listing[0].0);
    var w := WrittenPath(out);
    WrittenUnderRoot(root, listing[0].0);
    TopDirectoryIsMatched(t, w);
  }

  /** A file written for a staging path below the root lies below the root's own folder. */
  lemma WrittenUnderRoot(root: Path, rel: Path)
    requires root != [] && rel != []
    requires Name(StagedPath(root, rel)) != ""
    ensures var w := WrittenPath(StagedPath(root, rel));
      |w| >= 2 && w[0] == Name(root)
  {
    var out := StagedPath(root, rel);
    var w := WrittenPath(out);
    assert |out| >= 2 && out[0] == Name(root);
    assert w != [] && w == Parent(w) + [Name(w)];
    assert Parent(out) == out[..|out| - 1];
    assert Parent(w)[0] == out[0];
  }

  class DatabricksConvert {
    const inputPath: Path
    const outputPath: Path
    /** The directory `tempfile.mkdtemp()` created; the staging tree is kept relative to it. */
    const tempPath: Path

    constructor (inputPath: Path, outputPath: Path, tempPath: Path)
      ensures this.inputPath == inputPath && this.outputPath == outputPath && this.tempPath == tempPath
    {
      this.inputPath := inputPath;
      this.outputPath := outputPath;
      this.tempPath := tempPath;
    }

    /**
      `_convert_directory(root, …)`: the loop over the glob matches of `root`,
      each turn one `mkdir` and one `_convert_file`; an exception ends it.
     */
    method ConvertDirectory(root: Path, listing: seq<(Path, Node)>, build: Builder) returns (r: Result<Tree, Error>)
      ensures r == StageDirectory(root, listing, build)
    {
      var t := EmptyTree;
      var k := 0;
      while k < |listing|
        invariant 0 <= k <= |listing|
        invariant StageDirectory(root, listing, build) == StageFrom(t, root, listing, k, build)
      {
        var step := StageEntry(t, root, listing[k].0, listing[k].1, k, build);
        if step.Err? {
          return step;
        }
        t := step.value;
        k := k + 1;
      }
      return Ok(t);
    }

    /**
      The first loop of `_create_zip`, over `directories`: one empty entry
      `str(directory) + "/"` per directory, in the order the set is iterated,
      which `order` records.
     */
    method WriteDirectoryEntries(directories: set<Path>) returns (entries: seq<Entry>, ghost order: seq<Path>)
      ensures Enumerates(order, directories)
      ensures entries == DirEntries(order)
      ensures |entries| == |directories|
      ensures forall d | d in directories :: Entry(DirEntryName(d), NoData) in entries
      ensures NoDataEntries(entries)
    {
      var remaining := directories;
      ghost var done: set<Path> := {};
      entries, order := [], [];
      while remaining != {}
        invariant remaining + done == directories && remaining !! done
        invariant DirsListed(done, order, entries)
        decreases remaining
      {
        var d :| d in remaining;
        DirsListedStep(done, order, entries, d);
        entries := entries + [Entry(DirEntryName(d), NoData)];
        order := order + [d];
        done := done + {d};
        remaining := remaining - {d};
      }
      assert done == directories;
      DirEntriesListed(order, directories, entries);
    }

    /**
      The second loop of `_create_zip`: one entry per match, in glob order,
      holding the text read from it; reading a match that is a directory
      raises `IsADirectoryError`, which ends the loop.
     */
    method WriteFileEntries(t: Tree) returns (r: Result<seq<Entry>, Error>, ghost order: seq<Path>)
      ensures r.Ok? <==> forall p | p in Matches(t) :: p in t.files
      ensures r.Ok? ==> && Enumerates(order, Matches(t))
                        && (forall i | 0 <= i < |order| :: order[i] in t.files)
                        && r.value == FileEntries(t, order)
      ensures r.Err? ==> r.error.IsADirectory? && r.error.path in Matches(t) && r.error.path !in t.files
    {
      var matches := Matches(t);
      var todo := matches;
      ghost var done: set<Path> := {};
      var entries: seq<Entry> := [];
      order := [];
      while todo != {}
        invariant todo + done == matches && todo !! done
        invariant FilesRead(t, done, order, entries)
        decreases todo
      {
        var p :| p in todo;
        if p !in t.files {
          return Err(IsADirectory(p)), order;
        }
        FilesReadStep(t, done, order, entries, p);
        entries := entries + [Entry(PathString(p), Serialised(t.files[p]))];
        order := order + [p];
        done := done + {p};
        todo := todo - {p};
      }
      r := Ok(entries);
    }

    /**
      `_create_zip(temp_path, …)`: the directory entries, then the file entries.
      `dirOrder` and `fileOrder` are the two orders the run happened to use.
     */
    method CreateZip(t: Tree) returns (r: Result<seq<Entry>, Error>, ghost dirOrder: seq<Path>, ghost fileOrder: seq<Path>)
      ensures Enumerates(dirOrder, ParentDirs(t))
      ensures r.Ok? <==> forall p | p in Matches(t) :: p in t.files
      ensures r.Ok? ==> && Enumerates(fileOrder, Matches(t))
                        && (forall i | 0 <= i < |fileOrder| :: fileOrder[i] in t.files)
                        && r.value == DirEntries(dirOrder) + FileEntries(t, fileOrder)
      ensures r.Err? ==> r.error.IsADirectory? && r.error.path in Matches(t) && r.error.path !in t.files
    {
      var dirs;
      var directories := ParentDirs(t);
      dirs, dirOrder := WriteDirectoryEntries(directories);
      var files;
      files, fileOrder := WriteFileEntries(t);
      if files.Err? {
        return Err(files.error), dirOrder, fileOrder;
      }
      r := Ok(dirs + files.value);
    }

    /**
      `convert()`: stage the input, then write the archive. A regular file
      always converts, into an archive holding `./` and the converted file.
     */
    method Convert(input: Input, build: Builder) returns (r: Result<Dbc, Error>, ghost dirOrder: seq<Path>, ghost fileOrder: seq<Path>)
      requires input.RegularFile? ==> Name(inputPath) != ""
      ensures input.RegularFile? ==>
        var w := WrittenPath([Name(inputPath)]);
        && r.Ok?
        && r.value.path == outputPath + [Stem(Name(inputPath)) + ".dbc"]
        && r.value.entries == [Entry("./", NoData), Entry(PathString(w), Serialised(build(0, input.text, [Name(inputPath)])))]
      ensures input.Directory? ==>
        var staged := StageDirectory(inputPath, input.listing, build);
        && (staged.Err? ==> r == Err(staged.error))
        && (staged.Ok? ==>
              && (r.Ok? <==> Name(inputPath) != "" && forall p | p in Matches(staged.value) :: p in staged.value.files)
              && (Name(inputPath) == "" ==> r == Err(EmptyName(inputPath)))
              && (r.Ok? ==> && r.value.path == outputPath + [Stem(Name(inputPath)) + ".dbc"]
                            && Enumerates(dirOrder, ParentDirs(staged.value))
                            && Enumerates(fileOrder, Matches(staged.value))
                            && (forall i | 0 <= i < |fileOrder| :: fileOrder[i] in staged.value.files)
                            && r.value.entries == DirEntries(dirOrder) + FileEntries(staged.value, fileOrder))
              && (Name(inputPath) != "" && r.Err? ==>
                    && r.error.IsADirectory?
                    && r.error.path in Matches(staged.value)
                    && r.error.path !in staged.value.files))
      ensures r.Ok? && ValidInput(inputPath, input) ==>
        forall i, j | 0 <= i < j < |r.value.entries| :: r.value.entries[i].name != r.value.entries[j].name
    {
      var staged: Result<Tree, Error>;
      if input.RegularFile? {
        staged := StageSingleFile(Name(inputPath), input.text, build);
      } else {
        staged := ConvertDirectory(inputPath, input.listing, build);
      }
      dirOrder, fileOrder := [], [];
      if staged.Err? {
        return Err(staged.error), dirOrder, fileOrder;
      }
      var path := ArchivePath(inputPath, outputPath);
      if path.None? {
        return Err(EmptyName(inputPath)), dirOrder, fileOrder;
      }
      var entries;
      entries, dirOrder, fileOrder := CreateZip(staged.value);
      if entries.Err? {
        return Err(entries.error), dirOrder, fileOrder;
      }
      r := Ok(Dbc(path.value, entries.value));
      if input.RegularFile? {
        SingleFileArchive(staged.value, WrittenPath([Name(inputPath)]), dirOrder, fileOrder);
      }
      if ValidInput(inputPath, input) {
        if input.RegularFile? {
          StageSingleFileValid(inputPath, input.text, build);
        } else {
          StagedDirectoryValid(inputPath, input.listing, build);
        }
        ArchiveNamesDistinct(staged.value, dirOrder, fileOrder);
      }
    }
  }
}
