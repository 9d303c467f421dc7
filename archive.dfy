/**
  The entries `_create_zip` writes into the `.dbc` archive, in order: one
  directory entry per distinct immediate parent of a glob match, then one file
  entry per match. The archive is its list of (name, content) entries.
 */
module Archive {
  import opened Paths
  import opened Notebook
  import opened Staging

  /** An entry's data: empty for a directory entry, else the serialised notebook the staged file holds. */
  datatype Content = NoData | Serialised(notebook: Notebook)

  datatype Entry = Entry(name: string, content: Content)

  /** The paths the recursive glob of `temp_path` for names `*.*` yields, relative to `temp_path`: every entry whose name contains a dot. */
  function Matches(t: Tree): set<Path> {
    set p | p in t.dirs + t.files.Keys && p != [] && '.' in Name(p)
  }

  /** `set([x.parent.relative_to(input_path) for x in …])`: the immediate parents only. */
  function ParentDirs(t: Tree): set<Path> {
    set p | p in Matches(t) :: Parent(p)
  }

  /** `str(directory) + "/"`. */
  function DirEntryName(d: Path): (r: string)
    ensures |r| >= 1 && r[|r| - 1] == '/' && r[..|r| - 1] == PathString(d)
  {
    PathString(d) + "/"
  }

  /** The directory entries, in the order the set is iterated. */
  function DirEntries(order: seq<Path>): (r: seq<Entry>)
    ensures |r| == |order|
  {
    if order == [] then []
    else DirEntries(order[..|order| - 1]) + [Entry(DirEntryName(order[|order| - 1]), NoData)]
  }

  /** The file entries, in glob order: each named `str(base_path)` and holding the staged file's text. */
  function FileEntries(t: Tree, order: seq<Path>): (r: seq<Entry>)
    requires forall i | 0 <= i < |order| :: order[i] in t.files
    ensures |r| == |order|
  {
    if order == [] then []
    else FileEntries(t, order[..|order| - 1]) + [Entry(PathString(order[|order| - 1]), Serialised(t.files[order[|order| - 1]]))]
  }

  lemma FileEntriesSnoc(t: Tree, order: seq<Path>, p: Path)
    requires forall i | 0 <= i < |order| :: order[i] in t.files
    requires p in t.files
    ensures FileEntries(t, order + [p]) == FileEntries(t, order) + [Entry(PathString(p), Serialised(t.files[p]))]
  {
    assert (order + [p])[..|order|] == order;
  }

  lemma DirEntriesSnoc(order: seq<Path>, d: Path)
    ensures DirEntries(order + [d]) == DirEntries(order) + [Entry(DirEntryName(d), NoData)]
  {
    assert (order + [d])[..|order|] == order;
  }

  /** `s` lists the elements of `S`, each once. */
  predicate Enumerates(s: seq<Path>, S: set<Path>) {
    && (forall i, j | 0 <= i < j < |s| :: s[i] != s[j])
    && (forall i | 0 <= i < |s| :: s[i] in S)
    && (forall p | p in S :: p in s)
  }

  lemma {:induction false} DistinctElements(s: seq<Path>)
    requires forall i, j | 0 <= i < j < |s| :: s[i] != s[j]
    ensures |set p | p in s| == |s|
  {
    if s != [] {
      var s', last := s[..|s| - 1], s[|s| - 1];
      DistinctElements(s');
      assert (set p | p in s) == (set p | p in s') + {last};
      assert last !in s';
    }
  }

  /** An enumeration of a set is as long as the set is large. */
  lemma EnumeratesSize(s: seq<Path>, S: set<Path>)
    requires Enumerates(s, S)
    ensures |s| == |S|
  {
    DistinctElements(s);
    assert (set p | p in s) == S;
  }

  lemma EnumeratesSnoc(s: seq<Path>, S: set<Path>, x: Path)
    requires Enumerates(s, S) && x !in S
    ensures Enumerates(s + [x], S + {x})
  {
    var s' := s + [x];
    forall i, j | 0 <= i < j < |s'| ensures s'[i] != s'[j] {
      if j == |s| {
        assert s'[i] == s[i] && s'[i] in S;
      } else {
        assert s'[i] == s[i] && s'[j] == s[j];
      }
    }
    forall p | p in S + {x} ensures p in s' {
      if p != x {
        var i :| 0 <= i < |s| && s[i] == p;
        assert s'[i] == p;
      } else {
        assert s'[|s|] == x;
      }
    }
  }

  /** After reading the matches in `done`, in the order `order`: the entries written so far. */
  ghost predicate FilesRead(t: Tree, done: set<Path>, order: seq<Path>, entries: seq<Entry>) {
    && Enumerates(order, done)
    && (forall p | p in done :: p in t.files)
    && (forall i | 0 <= i < |order| :: order[i] in t.files)
    && entries == FileEntries(t, order)
  }

  lemma FilesReadStep(t: Tree, done: set<Path>, order: seq<Path>, entries: seq<Entry>, p: Path)
    requires FilesRead(t, done, order, entries)
    requires p !in done && p in t.files
    ensures FilesRead(t, done + {p}, order + [p], entries + [Entry(PathString(p), Serialised(t.files[p]))])
  {
    FileEntriesSnoc(t, order, p);
    EnumeratesSnoc(order, done, p);
  }

  /** Every entry is empty, as a directory entry is. */
  predicate NoDataEntries(entries: seq<Entry>) {
    forall e | e in entries :: e.content == NoData
  }

  /** The directory entries of an enumeration of `S`: one empty entry per element of `S`, and nothing else. */
  lemma DirEntriesListed(order: seq<Path>, S: set<Path>, entries: seq<Entry>)
    requires Enumerates(order, S) && entries == DirEntries(order)
    ensures |entries| == |S|
    ensures forall d | d in S :: Entry(DirEntryName(d), NoData) in entries
    ensures NoDataEntries(entries)
  {
    EnumeratesSize(order, S);
    forall i | 0 <= i < |entries| ensures entries[i] == Entry(DirEntryName(order[i]), NoData) {
      DirEntryAt(order, i);
    }
    forall d | d in S ensures Entry(DirEntryName(d), NoData) in entries {
      var i :| 0 <= i < |order| && order[i] == d;
      assert entries[i] == Entry(DirEntryName(d), NoData);
    }
  }

  /** After writing the entries of the directories in `done`, in the order `order`. */
  ghost predicate DirsListed(done: set<Path>, order: seq<Path>, entries: seq<Entry>) {
    Enumerates(order, done) && entries == DirEntries(order)
  }

  lemma DirsListedStep(done: set<Path>, order: seq<Path>, entries: seq<Entry>, d: Path)
    requires DirsListed(done, order, entries) && d !in done
    ensures DirsListed(done + {d}, order + [d], entries + [Entry(DirEntryName(d), NoData)])
  {
    DirEntriesSnoc(order, d);
    EnumeratesSnoc(order, done, d);
  }

  /** Every path of the tree is one pathlib would build. */
  ghost predicate ValidTree(t: Tree) {
    && (forall p | p in t.dirs :: ValidPath(p))
    && (forall p | p in t.files :: ValidPath(p))
  }

  lemma StagedValid(root: Path, rel: Path)
    requires ValidPath(root) && ValidPath(rel)
    ensures ValidPath(StagedPath(root, rel))
  {
    var out := StagedPath(root, rel);
    if root != [] {
      assert ValidComponent(root[|root| - 1]);
      assert forall i | 1 <= i < |out| :: out[i] == rel[i - 1];
    }
  }

  /** One successful loop turn for a well-formed match keeps every staged path well formed. */
  lemma StageEntryValid(t: Tree, root: Path, rel: Path, node: Node, k: nat, build: Builder)
    requires ValidTree(t) && ValidPath(root) && ValidPath(rel)
    requires StageEntry(t, root, rel, node, k, build).Ok?
    ensures ValidTree(StageEntry(t, root, rel, node, k, build).value)
  {
    var out := StagedPath(root, rel);
    StageEntryEffect(t, root, rel, node, k, build);
    StagedValid(root, rel);
    ParentValid(out);
    WrittenValid(out);
  }

  /**
    When the input root and every match are paths pathlib would build, so is
    every path the staging loop creates.
   */
  lemma {:induction false} StageFromValid(t: Tree, root: Path, listing: seq<(Path, Node)>, k: nat, build: Builder)
    requires k <= |listing|
    requires ValidTree(t) && ValidPath(root)
    requires forall j | k <= j < |listing| :: ValidPath(listing[j].0)
    requires StageFrom(t, root, listing, k, build).Ok?
    ensures ValidTree(StageFrom(t, root, listing, k, build).value)
    decreases |listing| - k
  {
    if k < |listing| {
      StageEntryValid(t, root, listing[k].0, listing[k].1, k, build);
      StageFromValid(StageEntry(t, root, listing[k].0, listing[k].1, k, build).value, root, listing, k + 1, build);
    }
  }

  lemma StagedDirectoryValid(root: Path, listing: seq<(Path, Node)>, build: Builder)
    requires ValidPath(root)
    requires forall j | 0 <= j < |listing| :: ValidPath(listing[j].0)
    requires StageDirectory(root, listing, build).Ok?
    ensures ValidTree(StageDirectory(root, listing, build).value)
  {
    assert ValidTree(EmptyTree);
    StageFromValid(EmptyTree, root, listing, 0, build);
  }

  /** The single-file branch stages a well-formed path when the input name is a real component. */
  lemma StageSingleFileValid(inputPath: Path, text: string, build: Builder)
    requires ValidPath(inputPath) && Name(inputPath) != ""
    ensures ValidTree(StageSingleFile(Name(inputPath), text, build).value)
  {
    assert ValidComponent(inputPath[|inputPath| - 1]);
    WrittenValid([Name(inputPath)]);
  }

  lemma {:induction false} DirEntryAt(order: seq<Path>, i: nat)
    requires i < |order|
    ensures DirEntries(order)[i] == Entry(DirEntryName(order[i]), NoData)
    decreases |order|
  {
    if i < |order| - 1 {
      DirEntryAt(order[..|order| - 1], i);
    }
  }

  lemma {:induction false} FileEntryAt(t: Tree, order: seq<Path>, i: nat)
    requires forall k | 0 <= k < |order| :: order[k] in t.files
    requires i < |order|
    ensures FileEntries(t, order)[i] == Entry(PathString(order[i]), Serialised(t.files[order[i]]))
    decreases |order|
  {
    if i < |order| - 1 {
      FileEntryAt(t, order[..|order| - 1], i);
    }
  }

  lemma ParentValid(p: Path)
    requires ValidPath(p)
    ensures ValidPath(Parent(p))
  {
  }

  lemma DirEntryNameInjective(d: Path, e: Path)
    requires ValidPath(d) && ValidPath(e)
    requires DirEntryName(d) == DirEntryName(e)
    ensures d == e
  {
    var a, b := PathString(d), PathString(e);
    assert a == (a + "/")[..|a|];
    assert b == (b + "/")[..|b|];
    PathStringInjective(d, e);
  }

  lemma DirNameIsNotFileName(d: Path, p: Path)
    requires ValidPath(p)
    ensures DirEntryName(d) != PathString(p)
  {
    PathStringNoTrailingSlash(p);
    var a := DirEntryName(d);
    assert a[|a| - 1] == '/';
  }

  lemma DirNamesDistinct(t: Tree, dirOrder: seq<Path>, i: nat, j: nat)
    requires ValidTree(t)
    requires Enumerates(dirOrder, ParentDirs(t))
    requires i < j < |dirOrder|
    ensures DirEntries(dirOrder)[i].name != DirEntries(dirOrder)[j].name
  {
    DirEntryAt(dirOrder, i);
    DirEntryAt(dirOrder, j);
    var p :| p in Matches(t) && Parent(p) == dirOrder[i];
    var q :| q in Matches(t) && Parent(q) == dirOrder[j];
    ParentValid(p);
    ParentValid(q);
    if DirEntryName(dirOrder[i]) == DirEntryName(dirOrder[j]) {
      DirEntryNameInjective(dirOrder[i], dirOrder[j]);
    }
  }

  lemma FileNamesDistinct(t: Tree, fileOrder: seq<Path>, i: nat, j: nat)
    requires ValidTree(t)
    requires forall k | 0 <= k < |fileOrder| :: fileOrder[k] in t.files
    requires i < j < |fileOrder| && fileOrder[i] != fileOrder[j]
    ensures FileEntries(t, fileOrder)[i].name != FileEntries(t, fileOrder)[j].name
  {
    FileEntryAt(t, fileOrder, i);
    FileEntryAt(t, fileOrder, j);
    if PathString(fileOrder[i]) == PathString(fileOrder[j]) {
      PathStringInjective(fileOrder[i], fileOrder[j]);
    }
  }

  /**
    No two archive entries share a name: directory names end in '/', file
    names never do, and `str` is injective on paths.
   */
  lemma ArchiveNamesDistinct(t: Tree, dirOrder: seq<Path>, fileOrder: seq<Path>)
    requires ValidTree(t)
    requires Enumerates(dirOrder, ParentDirs(t))
    requires Enumerates(fileOrder, Matches(t))
    requires forall i | 0 <= i < |fileOrder| :: fileOrder[i] in t.files
    ensures var es := DirEntries(dirOrder) + FileEntries(t, fileOrder);
      forall i, j | 0 <= i < j < |es| :: es[i].name != es[j].name
  {
    var ds, fs := DirEntries(dirOrder), FileEntries(t, fileOrder);
    forall i, j | 0 <= i < j < |ds| ensures ds[i].name != ds[j].name {
      DirNamesDistinct(t, dirOrder, i, j);
    }
    forall i, j | 0 <= i < |ds| && 0 <= j < |fs| ensures ds[i].name != fs[j].name {
      DirEntryAt(dirOrder, i);
      FileEntryAt(t, fileOrder, j);
      DirNameIsNotFileName(dirOrder[i], fileOrder[j]);
    }
    forall i, j | 0 <= i < j < |fs| ensures fs[i].name != fs[j].name {
      FileNamesDistinct(t, fileOrder, i, j);
    }
    ConcatNamesDistinct(ds, fs);
  }

  lemma ConcatNamesDistinct(ds: seq<Entry>, fs: seq<Entry>)
    requires forall i, j | 0 <= i < j < |ds| :: ds[i].name != ds[j].name
    requires forall i, j | 0 <= i < |ds| && 0 <= j < |fs| :: ds[i].name != fs[j].name
    requires forall i, j | 0 <= i < j < |fs| :: fs[i].name != fs[j].name
    ensures var es := ds + fs; forall i, j | 0 <= i < j < |es| :: es[i].name != es[j].name
  {
    var es := ds + fs;
    forall i, j | 0 <= i < j < |es| ensures es[i].name != es[j].name {
      if j < |ds| {
        assert es[i] == ds[i] && es[j] == ds[j];
      } else if i < |ds| {
        assert es[i] == ds[i] && es[j] == fs[j - |ds|];
      } else {
        assert es[i] == fs[i - |ds|] && es[j] == fs[j - |ds|];
      }
    }
  }

  /** A match directly under the staging root gives the directory entry `./`. */
  lemma RootMatchGivesDotEntry(t: Tree, dirOrder: seq<Path>, p: Path)
    requires Enumerates(dirOrder, ParentDirs(t))
    requires p in Matches(t) && |p| == 1
    ensures exists i | 0 <= i < |dirOrder| :: DirEntries(dirOrder)[i].name == "./"
  {
    assert Parent(p) == [] && [] in ParentDirs(t);
    var i :| 0 <= i < |dirOrder| && dirOrder[i] == [];
    DirEntryAt(dirOrder, i);
    var root: Path := [];
    assert PathString(root) == ".";
    assert DirEntries(dirOrder)[i].name == DirEntryName(root) == "./";
  }

  lemma SingleMatch(t: Tree, w: Path)
    requires t.dirs == {} && t.files.Keys == {w}
    requires |w| == 1 && '.' in Name(w)
    ensures Matches(t) == {w} && ParentDirs(t) == {[]}
  {
    assert w in t.files;
    assert Matches(t) == {w};
    assert Parent(w) == [];
  }

  lemma EnumeratesSingleton(s: seq<Path>, x: Path)
    requires Enumerates(s, {x})
    ensures s == [x]
  {
    EnumeratesSize(s, {x});
    assert s[0] in {x};
  }

  lemma RootDirEntry()
    ensures DirEntries([[]]) == [Entry("./", NoData)]
  {
    var none: seq<Path> := [];
    var root: Path := [];
    assert PathString(root) == ".";
    assert DirEntryName(root) == "./";
    DirEntriesSnoc(none, root);
    assert none + [[]] == [[]];
  }

  lemma SingleFileEntry(t: Tree, w: Path)
    requires w in t.files
    ensures FileEntries(t, [w]) == [Entry(PathString(w), Serialised(t.files[w]))]
  {
    var none: seq<Path> := [];
    FileEntriesSnoc(t, none, w);
    assert none + [w] == [w];
  }

  /** A staging tree holding one file directly under the root archives as `./` followed by that file. */
  lemma SingleFileArchive(t: Tree, w: Path, dirOrder: seq<Path>, fileOrder: seq<Path>)
    requires t.dirs == {} && t.files.Keys == {w}
    requires |w| == 1 && '.' in Name(w)
    requires Enumerates(dirOrder, ParentDirs(t))
    requires Enumerates(fileOrder, Matches(t))
    ensures forall i | 0 <= i < |fileOrder| :: fileOrder[i] in t.files
    ensures DirEntries(dirOrder) + FileEntries(t, fileOrder) == [Entry("./", NoData), Entry(PathString(w), Serialised(t.files[w]))]
  {
    SingleMatch(t, w);
    EnumeratesSingleton(dirOrder, []);
    EnumeratesSingleton(fileOrder, w);
    RootDirEntry();
    SingleFileEntry(t, w);
  }

  lemma DirIsNotFile(t: Tree, p: Path)
    requires WellFormed(t) && p in t.dirs
    ensures p !in t.files
  {
    assert IsDir(t, Parent(p));
  }

  lemma ParentIsDir(t: Tree, p: Path)
    requires WellFormed(t)
    requires p in t.dirs || p in t.files
    requires |p| >= 2
    ensures p[..|p| - 1] in t.dirs
  {
    assert Parent(p) == p[..|p| - 1] && Parent(p) != [];
  }

  lemma {:induction false} AncestorsAreDirs(t: Tree, p: Path, k: nat)
    requires WellFormed(t)
    requires p in t.dirs || p in t.files
    requires 0 < k < |p|
    ensures p[..k] in t.dirs
    decreases |p|
  {
    var q := p[..|p| - 1];
    ParentIsDir(t, p);
    if k < |q| {
      AncestorsAreDirs(t, q, k);
      assert q[..k] == p[..k];
    } else {
      assert p[..k] == q;
    }
  }

  /** The top folder of a nested staged file is a match of the glob when its name holds a dot. */
  lemma TopDirectoryIsMatched(t: Tree, w: Path)
    requires WellFormed(t)
    requires w in t.files && |w| >= 2 && '.' in w[0]
    ensures [w[0]] in Matches(t) && [w[0]] in t.dirs && [w[0]] !in t.files
  {
    AncestorsAreDirs(t, w, 1);
    assert w[..1] == [w[0]];
    DirIsNotFile(t, [w[0]]);
  }

  /**
    Although `_create_zip` lists only immediate parents, after a successful
    `_convert_directory` every staged directory, and so every ancestor of every
    match, has its directory entry: `mkdir` without `parents=True` only
    succeeds where a match was staged one level up.
   */
  lemma StagedDirectoriesListed(root: Path, listing: seq<(Path, Node)>, build: Builder)
    requires StageDirectory(root, listing, build).Ok?
    ensures var t := StageDirectory(root, listing, build).value;
      && (forall d | d in t.dirs :: d in ParentDirs(t))
      && (forall p, k | p in Matches(t) && 0 < k < |p| :: p[..k] in ParentDirs(t))
  {
    var t := StageDirectory(root, listing, build).value;
    StageFromWellFormed(EmptyTree, root, listing, 0, build);
    StageFromPopulated(EmptyTree, root, listing, 0, build);
    forall d | d in t.dirs ensures d in ParentDirs(t) {
      var f :| f in t.files && Parent(f) == d && '.' in Name(f);
      assert f in Matches(t);
    }
    forall p, k | p in Matches(t) && 0 < k < |p| ensures p[..k] in ParentDirs(t) {
      AncestorsAreDirs(t, p, k);
    }
  }
}
