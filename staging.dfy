/**
  The staging directory `temp_path` and `_convert_directory`: every file the
  glob matches is converted into the staging directory, after `mkdir` of its
  parent there. The file system is a value: the directories and files below
  `temp_path`, by their paths relative to it.
 */
module Staging {
  import opened Wrappers
  import opened Paths
  import opened Notebook

  /** The exceptions the staging steps can raise. */
  datatype Error =
    | FileNotFound(path: Path)
    | FileExists(path: Path)
    | NotADirectory(path: Path)
    | IsADirectory(path: Path)
    | EmptyName(path: Path)

  /**
    The contents of `temp_path`: the empty path is `temp_path` itself, which
    `tempfile.mkdtemp` created; `files` maps each written file to the notebook
    document that `write_text` stored in it.
   */
  datatype Tree = Tree(dirs: set<Path>, files: map<Path, Notebook>)

  /** A fresh `mkdtemp` directory. */
  const EmptyTree: Tree := Tree({}, map[])

  predicate IsDir(t: Tree, p: Path) {
    p == [] || p in t.dirs
  }

  /** A real directory tree: every entry sits in a directory, and no path is both a file and a directory. */
  ghost predicate WellFormed(t: Tree) {
    && (forall p {:trigger Parent(p)} | p in t.dirs :: p != [] && IsDir(t, Parent(p)) && p !in t.files)
    && (forall p {:trigger Parent(p)} | p in t.files :: p != [] && IsDir(t, Parent(p)))
  }

  /** The error the operating system reports for `p` when its parent is not a directory. */
  function PathError(t: Tree, p: Path): Error {
    if exists k | 0 < k < |p| :: p[..k] in t.files then NotADirectory(p) else FileNotFound(p)
  }

  /**
    `Path.mkdir(exist_ok=True)` without `parents=True`: an existing directory
    is accepted, an existing file raises `FileExistsError`, and a missing
    parent makes `os.mkdir` fail.
   */
  function MakeDir(t: Tree, p: Path): (r: Result<Tree, Error>)
    ensures r.Ok? <==> IsDir(t, p) || (p !in t.files && IsDir(t, Parent(p)))
    ensures r.Ok? ==> IsDir(r.value, p) && r.value.files == t.files && t.dirs <= r.value.dirs <= t.dirs + {p}
    ensures r.Err? ==> r.error.path == p
  {
    if IsDir(t, p) then Ok(t)
    else if p in t.files then Err(FileExists(p))
    else if IsDir(t, Parent(p)) then Ok(t.(dirs := t.dirs + {p}))
    else Err(PathError(t, p))
  }

  /**
    `Path.write_text`: opening a directory raises `IsADirectoryError`; an
    existing file is overwritten.
   */
  function WriteFile(t: Tree, p: Path, document: Notebook): (r: Result<Tree, Error>)
    ensures r.Ok? <==> !IsDir(t, p) && IsDir(t, Parent(p))
    ensures r.Ok? ==> r.value.dirs == t.dirs && r.value.files == t.files[p := document]
    ensures r.Err? ==> r.error.path == p
  {
    if IsDir(t, p) then Err(IsADirectory(p))
    else if !IsDir(t, Parent(p)) then Err(PathError(t, p))
    else Ok(t.(files := t.files[p := document]))
  }

  lemma MakeDirWellFormed(t: Tree, p: Path)
    requires WellFormed(t) && MakeDir(t, p).Ok?
    ensures WellFormed(MakeDir(t, p).value)
  {
    if !IsDir(t, p) {
      var u := t.(dirs := t.dirs + {p});
      assert MakeDir(t, p).value == u;
      forall q | q in u.dirs ensures q != [] && IsDir(u, Parent(q)) && q !in u.files {
        if q != p {
          assert q in t.dirs && IsDir(t, Parent(q));
        }
      }
      forall q | q in u.files ensures q != [] && IsDir(u, Parent(q)) {
        assert q in t.files && IsDir(t, Parent(q));
      }
    }
  }

  lemma WriteFileWellFormed(t: Tree, p: Path, document: Notebook)
    requires WellFormed(t) && WriteFile(t, p, document).Ok?
    ensures WellFormed(WriteFile(t, p, document).value)
  {
    var u := t.(files := t.files[p := document]);
    assert WriteFile(t, p, document).value == u;
    forall q | q in u.dirs ensures q != [] && IsDir(u, Parent(q)) && q !in u.files {
      assert q in t.dirs && IsDir(t, Parent(q));
    }
    forall q | q in u.files ensures q != [] && IsDir(u, Parent(q)) {
      if q != p {
        assert q in t.files && IsDir(t, Parent(q));
      }
    }
  }

  /** What a glob match is: a file with its text, or a directory whose name happens to hold a dot. */
  datatype Node = File(text: string) | Folder

  /**
    The document the `k`-th `_convert_file` call builds from a text for an
    output file; it stands for that call's random draws.
   */
  type Builder = (nat, string, Path) -> Notebook

  /** `random.randrange(100000000000000, 999999999999999)` as a function of an arbitrary draw. */
  function Origin(draw: nat): (n: int)
    ensures OriginLow <= n < OriginHigh
    ensures draw < OriginHigh - OriginLow ==> n == OriginLow + draw
  {
    OriginLow + draw % (OriginHigh - OriginLow)
  }

  /** The `uuid4()` values drawn by the `k`-th `_convert_file` call. */
  function UuidStream(uuids: (nat, nat) -> string, k: nat): nat -> string {
    (j: nat) => uuids(k, j)
  }

  /** The documents `_convert_file` builds when its `k`-th call draws `draws(k)` and `uuids(k, _)`. */
  function Conversions(draws: nat -> nat, uuids: (nat, nat) -> string): Builder {
    (k: nat, text: string, out: Path) => Document(text, out, Origin(draws(k)), UuidStream(uuids, k))
  }

  /** Every `uuid4()` call of the run returns a different value. */
  ghost predicate UuidsDistinct(uuids: (nat, nat) -> string) {
    forall k: nat, j: nat, k': nat, j': nat :: (k, j) != (k', j') ==> uuids(k, j) != uuids(k', j')
  }

  /**
    With distinct `uuid4()` values, the documents of two different
    `_convert_file` calls of a run share no guid or nuid.
   */
  lemma ConversionsDisjoint(draws: nat -> nat, uuids: (nat, nat) -> string,
                            k: nat, text: string, out: Path, k': nat, text': string, out': Path)
    requires UuidsDistinct(uuids) && k != k'
    ensures Identifiers(Conversions(draws, uuids)(k, text, out)) !! Identifiers(Conversions(draws, uuids)(k', text', out'))
  {
    var d := Conversions(draws, uuids)(k, text, out);
    var d' := Conversions(draws, uuids)(k', text', out');
    assert d == Document(text, out, Origin(draws(k)), UuidStream(uuids, k));
    assert d' == Document(text', out', Origin(draws(k')), UuidStream(uuids, k'));
    DocumentIdentifiers(text, out, Origin(draws(k)), UuidStream(uuids, k));
    DocumentIdentifiers(text', out', Origin(draws(k')), UuidStream(uuids, k'));
    forall x | x in Identifiers(d) ensures x !in Identifiers(d') {
      var j: nat :| UuidStream(uuids, k)(j) == x;
      assert uuids(k, j) == x;
      forall j': nat ensures UuidStream(uuids, k')(j') != x {
        assert (k, j) != (k', j');
      }
    }
  }

  /**
    The staging path of the match `root / rel`: `temp_path` joined with
    `input_file.relative_to(input_path.parent)`, here relative to `temp_path`.
   */
  function StagedPath(root: Path, rel: Path): (r: Path)
    ensures RelativeTo(Join(root, rel), Parent(root)) == Some(r)
    ensures root != [] ==> |r| == |rel| + 1 && r[0] == Name(root) && r[1..] == rel
  {
    RelativeToParent(root, rel);
    if root == [] then rel else [Name(root)] + rel
  }

  /**
    One turn of the loop of `_convert_directory`, the `k`-th, for the match
    `root / rel`: `mkdir` of the staging parent, then `_convert_file`, which
    reads the match and writes the document it builds under the language suffix.
   */
  function StageEntry(t: Tree, root: Path, rel: Path, node: Node, k: nat, build: Builder): (r: Result<Tree, Error>)
  {
    var out := StagedPath(root, rel);
    var made := MakeDir(t, Parent(out));
    if made.Err? then Err(made.error)
    else if node.Folder? then Err(IsADirectory(Join(root, rel)))
    else if Name(out) == "" then Err(EmptyName(out))
    else WriteFile(made.value, WrittenPath(out), build(k, node.text, out))
  }

  /** With the real draws, a turn writes exactly what `_convert_file` produces. */
  lemma StageEntryConverts(t: Tree, root: Path, rel: Path, text: string, k: nat,
                           draws: nat -> nat, uuids: (nat, nat) -> string)
    requires Name(StagedPath(root, rel)) != ""
    ensures var out := StagedPath(root, rel);
      var c := ConvertFile(text, out, Origin(draws(k)), UuidStream(uuids, k));
      && WrittenPath(out) == c.path
      && Conversions(draws, uuids)(k, text, out) == c.document
  {
  }

  /** The loop of `_convert_directory` from the `k`-th match on; the first exception ends it. */
  function StageFrom(t: Tree, root: Path, listing: seq<(Path, Node)>, k: nat, build: Builder): Result<Tree, Error>
    requires k <= |listing|
    decreases |listing| - k
  {
    if k == |listing| then Ok(t)
    else
      var step := StageEntry(t, root, listing[k].0, listing[k].1, k, build);
      if step.Err? then step else StageFrom(step.value, root, listing, k + 1, build)
  }

  /**
    The file branch of `convert`: `_convert_file(input_path, temp_path / input_path.name)`,
    with no `mkdir`, as the only call of the run.
   */
  function StageSingleFile(name: string, text: string, build: Builder): (r: Result<Tree, Error>)
    requires name != ""
    ensures r.Ok? && r.value == Tree({}, map[WrittenPath([name]) := build(0, text, [name])])
    ensures |WrittenPath([name])| == 1
  {
    assert Name([name]) == name && Parent([name]) == [];
    var w := WrittenPath([name]);
    assert w != [] && Parent(w) == [];
    WriteFile(EmptyTree, w, build(0, text, [name]))
  }

  /** `_convert_directory` on a fresh staging directory. */
  function StageDirectory(root: Path, listing: seq<(Path, Node)>, build: Builder): Result<Tree, Error> {
    StageFrom(EmptyTree, root, listing, 0, build)
  }

  /** A successful turn reads a file, creates at most the parent directory and adds the converted file. */
  lemma StageEntryEffect(t: Tree, root: Path, rel: Path, node: Node, k: nat, build: Builder)
    requires StageEntry(t, root, rel, node, k, build).Ok?
    ensures var out := StagedPath(root, rel);
      var t' := StageEntry(t, root, rel, node, k, build).value;
      && node.File?
      && Name(out) != ""
      && t.dirs <= t'.dirs <= t.dirs + {Parent(out)}
      && t'.files == t.files[WrittenPath(out) := build(k, node.text, out)]
  {
  }

  /** The staging loop keeps the directory tree well formed. */
  lemma {:induction false} StageFromWellFormed(t: Tree, root: Path, listing: seq<(Path, Node)>, k: nat, build: Builder)
    requires k <= |listing|
    requires WellFormed(t)
    requires StageFrom(t, root, listing, k, build).Ok?
    ensures WellFormed(StageFrom(t, root, listing, k, build).value)
    decreases |listing| - k
  {
    if k < |listing| {
      var t1 := StageEntry(t, root, listing[k].0, listing[k].1, k, build).value;
      StageEntryWellFormed(t, root, listing[k].0, listing[k].1, k, build);
      assert StageFrom(t, root, listing, k, build) == StageFrom(t1, root, listing, k + 1, build);
      StageFromWellFormed(t1, root, listing, k + 1, build);
    }
  }

  /** One loop turn keeps the directory tree well formed. */
  lemma StageEntryWellFormed(t: Tree, root: Path, rel: Path, node: Node, k: nat, build: Builder)
    requires WellFormed(t)
    requires StageEntry(t, root, rel, node, k, build).Ok?
    ensures WellFormed(StageEntry(t, root, rel, node, k, build).value)
  {
    var out := StagedPath(root, rel);
    var made := MakeDir(t, Parent(out));
    MakeDirWellFormed(t, Parent(out));
    WriteFileWellFormed(made.value, WrittenPath(out), build(k, node.text, out));
  }

  /** Every staged directory holds a staged file whose name contains a dot. */
  ghost predicate Populated(t: Tree) {
    forall d | d in t.dirs :: exists f | f in t.files :: Parent(f) == d && '.' in Name(f)
  }

  lemma StageEntryPopulated(t: Tree, root: Path, rel: Path, node: Node, k: nat, build: Builder)
    requires Populated(t)
    requires StageEntry(t, root, rel, node, k, build).Ok?
    ensures Populated(StageEntry(t, root, rel, node, k, build).value)
  {
    var t1 := StageEntry(t, root, rel, node, k, build).value;
    StageEntryEffect(t, root, rel, node, k, build);
    var w := WrittenPath(StagedPath(root, rel));
    forall d | d in t1.dirs ensures exists f | f in t1.files :: Parent(f) == d && '.' in Name(f) {
      if d in t.dirs {
        var f :| f in t.files && Parent(f) == d && '.' in Name(f);
        assert f in t1.files;
      } else {
        assert Parent(w) == d && w in t1.files;
      }
    }
  }

  /** The staging loop keeps every staged directory populated. */
  lemma {:induction false} StageFromPopulated(t: Tree, root: Path, listing: seq<(Path, Node)>, k: nat, build: Builder)
    requires k <= |listing|
    requires Populated(t)
    requires StageFrom(t, root, listing, k, build).Ok?
    ensures Populated(StageFrom(t, root, listing, k, build).value)
    decreases |listing| - k
  {
    if k < |listing| {
      StageEntryPopulated(t, root, listing[k].0, listing[k].1, k, build);
      StageFromPopulated(StageEntry(t, root, listing[k].0, listing[k].1, k, build).value, root, listing, k + 1, build);
    }
  }

  /** The file the `j`-th match is converted into, when its staging path has a name. */
  function Target(root: Path, listing: seq<(Path, Node)>, j: nat): Path
    requires j < |listing| && Name(StagedPath(root, listing[j].0)) != ""
  {
    WrittenPath(StagedPath(root, listing[j].0))
  }

  /** Some match from the `k`-th on is converted into `p`. */
  ghost predicate WrittenFrom(root: Path, listing: seq<(Path, Node)>, k: nat, p: Path) {
    exists j | k <= j < |listing| :: Name(StagedPath(root, listing[j].0)) != "" && Target(root, listing, j) == p
  }

  lemma WrittenFromStep(root: Path, listing: seq<(Path, Node)>, k: nat, p: Path)
    ensures WrittenFrom(root, listing, k + 1, p) ==> WrittenFrom(root, listing, k, p)
  {
    if WrittenFrom(root, listing, k + 1, p) {
      var j :| k + 1 <= j < |listing| && Name(StagedPath(root, listing[j].0)) != "" && Target(root, listing, j) == p;
      assert k <= j;
    }
  }

  /** Every match from the `k`-th on is a file, and its converted path is among the staged files. */
  lemma {:induction false} StageFromStaged(t: Tree, root: Path, listing: seq<(Path, Node)>, k: nat, build: Builder)
    requires k <= |listing|
    requires StageFrom(t, root, listing, k, build).Ok?
    ensures var t' := StageFrom(t, root, listing, k, build).value;
      && t.dirs <= t'.dirs
      && t.files.Keys <= t'.files.Keys
      && forall j | k <= j < |listing| ::
           listing[j].1.File? && Name(StagedPath(root, listing[j].0)) != "" && Target(root, listing, j) in t'.files
    decreases |listing| - k
  {
    if k < |listing| {
      var t1 := StageEntry(t, root, listing[k].0, listing[k].1, k, build).value;
      StageEntryEffect(t, root, listing[k].0, listing[k].1, k, build);
      var t' := StageFrom(t1, root, listing, k + 1, build).value;
      StageFromStaged(t1, root, listing, k + 1, build);
      assert StageFrom(t, root, listing, k, build) == StageFrom(t1, root, listing, k + 1, build);
      forall j | k <= j < |listing|
        ensures listing[j].1.File? && Name(StagedPath(root, listing[j].0)) != ""
        ensures Target(root, listing, j) in t'.files
      {
        if j == k {
          assert Target(root, listing, k) in t1.files;
        }
      }
    }
  }

  /** A staged file that no match from the `k`-th on writes keeps its document. */
  lemma {:induction false} StageFromKeeps(t: Tree, root: Path, listing: seq<(Path, Node)>, k: nat, build: Builder, p: Path)
    requires k <= |listing|
    requires StageFrom(t, root, listing, k, build).Ok?
    requires p in t.files && !WrittenFrom(root, listing, k, p)
    ensures var t' := StageFrom(t, root, listing, k, build).value;
      p in t'.files && t'.files[p] == t.files[p]
    decreases |listing| - k
  {
    if k < |listing| {
      var t1 := StageEntry(t, root, listing[k].0, listing[k].1, k, build).value;
      StageEntryEffect(t, root, listing[k].0, listing[k].1, k, build);
      assert p != Target(root, listing, k);
      WrittenFromStep(root, listing, k, p);
      StageFromKeeps(t1, root, listing, k + 1, build, p);
    }
  }

  /** The `j`-th match's document survives the loop when no later match writes the same file. */
  lemma {:induction false} StageFromLastWrite(t: Tree, root: Path, listing: seq<(Path, Node)>, k: nat, build: Builder, j: nat)
    requires k <= j < |listing|
    requires StageFrom(t, root, listing, k, build).Ok?
    requires Name(StagedPath(root, listing[j].0)) != "" && listing[j].1.File?
    requires !WrittenFrom(root, listing, j + 1, Target(root, listing, j))
    ensures var t' := StageFrom(t, root, listing, k, build).value;
      && Target(root, listing, j) in t'.files
      && t'.files[Target(root, listing, j)] == build(j, listing[j].1.text, StagedPath(root, listing[j].0))
    decreases |listing| - k
  {
    var t1 := StageEntry(t, root, listing[k].0, listing[k].1, k, build).value;
    StageEntryEffect(t, root, listing[k].0, listing[k].1, k, build);
    assert StageFrom(t, root, listing, k, build) == StageFrom(t1, root, listing, k + 1, build);
    if k == j {
      assert t1.files[Target(root, listing, j)] == build(j, listing[j].1.text, StagedPath(root, listing[j].0));
      StageFromKeeps(t1, root, listing, k + 1, build, Target(root, listing, j));
    } else {
      StageFromLastWrite(t1, root, listing, k + 1, build, j);
    }
  }

  /**
    The staging loop from the `k`-th match on: every match is a file and its
    converted path is staged, holding the document of the last match written
    there; no staged path is removed, and a file no match writes keeps its document.
   */
  lemma StageFromWrites(t: Tree, root: Path, listing: seq<(Path, Node)>, k: nat, build: Builder)
    requires k <= |listing|
    requires StageFrom(t, root, listing, k, build).Ok?
    ensures var t' := StageFrom(t, root, listing, k, build).value;
      && t.dirs <= t'.dirs
      && t.files.Keys <= t'.files.Keys
      && (forall j | k <= j < |listing| ::
            && listing[j].1.File?
            && Name(StagedPath(root, listing[j].0)) != ""
            && Target(root, listing, j) in t'.files
            && (!WrittenFrom(root, listing, j + 1, Target(root, listing, j)) ==>
                  t'.files[Target(root, listing, j)] == build(j, listing[j].1.text, StagedPath(root, listing[j].0))))
      && (forall p | p in t.files && !WrittenFrom(root, listing, k, p) :: t'.files[p] == t.files[p])
  {
    var t' := StageFrom(t, root, listing, k, build).value;
    StageFromStaged(t, root, listing, k, build);
    forall j | k <= j < |listing| && !WrittenFrom(root, listing, j + 1, Target(root, listing, j))
      ensures t'.files[Target(root, listing, j)] == build(j, listing[j].1.text, StagedPath(root, listing[j].0))
    {
      StageFromLastWrite(t, root, listing, k, build, j);
    }
    forall p | p in t.files && !WrittenFrom(root, listing, k, p) ensures t'.files[p] == t.files[p] {
      StageFromKeeps(t, root, listing, k, build, p);
    }
  }

  /**
    After a successful staging, every staged file is the converted path of
    some match, and it holds the document built for the last match written there.
   */
  lemma StagedFiles(root: Path, listing: seq<(Path, Node)>, build: Builder, p: Path)
    requires StageDirectory(root, listing, build).Ok?
    requires p in StageDirectory(root, listing, build).value.files
    ensures exists j | 0 <= j < |listing| ::
      && listing[j].1.File?
      && Name(StagedPath(root, listing[j].0)) != ""
      && Target(root, listing, j) == p
      && !WrittenFrom(root, listing, j + 1, p)
      && StageDirectory(root, listing, build).value.files[p] == build(j, listing[j].1.text, StagedPath(root, listing[j].0))
  {
    var t := StageDirectory(root, listing, build).value;
    assert StageDirectory(root, listing, build) == StageFrom(EmptyTree, root, listing, 0, build);
    StageFromOnlyWrites(EmptyTree, root, listing, 0, build, p);
    var j :| 0 <= j < |listing| && Name(StagedPath(root, listing[j].0)) != "" && p == Target(root, listing, j);
    LastWriter(root, listing, j, p);
    var i :| j <= i < |listing| && Name(StagedPath(root, listing[i].0)) != "" && Target(root, listing, i) == p
             && !WrittenFrom(root, listing, i + 1, p);
    StageFromStaged(EmptyTree, root, listing, 0, build);
    assert listing[i].1.File?;
    StageFromLastWrite(EmptyTree, root, listing, 0, build, i);
    assert t.files[p] == build(i, listing[i].1.text, StagedPath(root, listing[i].0));
  }

  /** Among the matches converted into `p`, from the `j`-th on, there is a last one. */
  lemma {:induction false} LastWriter(root: Path, listing: seq<(Path, Node)>, j: nat, p: Path)
    requires j < |listing| && Name(StagedPath(root, listing[j].0)) != "" && Target(root, listing, j) == p
    ensures exists i | j <= i < |listing| ::
      Name(StagedPath(root, listing[i].0)) != "" && Target(root, listing, i) == p && !WrittenFrom(root, listing, i + 1, p)
    decreases |listing| - j
  {
    if WrittenFrom(root, listing, j + 1, p) {
      var i :| j + 1 <= i < |listing| && Name(StagedPath(root, listing[i].0)) != "" && Target(root, listing, i) == p;
      LastWriter(root, listing, i, p);
    }
  }

  /** After a successful staging, the first match's converted file is in the well-formed tree. */
  lemma FirstMatchWritten(root: Path, listing: seq<(Path, Node)>, build: Builder)
    requires |listing| > 0
    requires StageDirectory(root, listing, build).Ok?
    ensures var t := StageDirectory(root, listing, build).value;
      var out := StagedPath(root, listing[0].0);
      && WellFormed(t)
      && Name(out) != ""
      && WrittenPath(out) in t.files
  {
    assert Name(StagedPath(root, listing[0].0)) != "";
    StageFromWrites(EmptyTree, root, listing, 0, build);
    StageFromWellFormed(EmptyTree, root, listing, 0, build);
  }

  /** Nothing but the converted matches is written: every staged file was there before or is one of them. */
  lemma {:induction false} StageFromOnlyWrites(t: Tree, root: Path, listing: seq<(Path, Node)>, k: nat, build: Builder, p: Path)
    requires k <= |listing|
    requires StageFrom(t, root, listing, k, build).Ok?
    requires p in StageFrom(t, root, listing, k, build).value.files
    ensures p in t.files || exists j | k <= j < |listing| ::
      Name(StagedPath(root, listing[j].0)) != "" && p == WrittenPath(StagedPath(root, listing[j].0))
    decreases |listing| - k
  {
    if k < |listing| {
      var t1 := StageEntry(t, root, listing[k].0, listing[k].1, k, build).value;
      StageEntryEffect(t, root, listing[k].0, listing[k].1, k, build);
      StageFromOnlyWrites(t1, root, listing, k + 1, build, p);
    }
  }

  /**
    A nested file with no matched sibling higher up: `mkdir` of its staging
    parent is not given `parents=True`, so it fails for want of that parent.
   */
  lemma NestedOnlyTreeFails(text: string, build: Builder)
    ensures StageDirectory(["r"], [(["s", "x.py"], File(text))], build) == Err(FileNotFound(["r", "s"]))
  {
    var out := StagedPath(["r"], ["s", "x.py"]);
    assert out == ["r", "s", "x.py"];
    assert Parent(out) == ["r", "s"];
    assert Parent(Parent(out)) == ["r"];
  }
}
