/**
  `_convert_file`: a source notebook's text becomes a Databricks notebook
  document, one command record per cell, written next to the output file
  with the language as its suffix.
 */
module Notebook {
  import opened Paths
  import opened Text
  import opened Json
  import opened CommandDelimiter

  /** Bounds of `random.randrange(100000000000000, 999999999999999)`; the upper one is excluded. */
  const OriginLow: int := 100000000000000
  const OriginHigh: int := 999999999999999

  /**
    One command record, its fields in the order of the dict literal of
    `_convert_file`. `position` is the whole number held by the Python float
    `float(i + 1)`; placeholders that are `None`, dicts or lists are `Json` values.
   */
  datatype Command = Command(
    version: string,
    origId: int,
    guid: string,
    subtype: string,
    commandType: string,
    position: int,
    command: string,
    commandVersion: int,
    state: string,
    results: Json,
    errorSummary: Json,
    error: Json,
    workflows: Json,
    startTime: int,
    submitTime: int,
    finishTime: int,
    collapsed: bool,
    bindings: Json,
    inputWidgets: Json,
    displayType: string,
    width: string,
    height: string,
    xColumns: Json,
    yColumns: Json,
    pivotColumns: Json,
    pivotAggregation: Json,
    useConsistentColors: bool,
    customPlotOptions: Json,
    commentThread: Json,
    commentsVisible: bool,
    parentHierarchy: Json,
    diffInserts: Json,
    diffDeletes: Json,
    globalVars: Json,
    latestUser: string,
    latestUserId: Json,
    commandTitle: string,
    showCommandTitle: bool,
    hideCommandCode: bool,
    hideCommandResult: bool,
    isLockedInExamMode: bool,
    iPythonMetadata: Json,
    streamStates: Json,
    datasetPreviewNameToCmdIdMap: Json,
    nuid: string)

  /** The empty HTML result every command carries. */
  const EmptyResult: Json := JObject([
    ("type", JString("html")),
    ("data", JString("<div class=\"ansiout\"></div>")),
    ("arguments", JObject([])),
    ("addedWidgets", JObject([])),
    ("removedWidgets", JArray([])),
    ("datasetInfos", JArray([]))])

  /** The record for cell `i` (0-based) of a notebook whose origin base is `n`. */
  function CommandRecord(n: int, i: nat, guid: string, nuid: string, fragment: string): Command
  {
    Command(
      version := "CommandV1",
      origId := n + i,
      guid := guid,
      subtype := "command",
      commandType := "auto",
      position := i + 1,
      command := Trim(fragment),
      commandVersion := 1,
      state := "finished",
      results := EmptyResult,
      errorSummary := JNull,
      error := JNull,
      workflows := JArray([]),
      startTime := 0,
      submitTime := 0,
      finishTime := 0,
      collapsed := false,
      bindings := JObject([]),
      inputWidgets := JObject([]),
      displayType := "table",
      width := "auto",
      height := "auto",
      xColumns := JNull,
      yColumns := JNull,
      pivotColumns := JNull,
      pivotAggregation := JNull,
      useConsistentColors := false,
      customPlotOptions := JObject([]),
      commentThread := JArray([]),
      commentsVisible := false,
      parentHierarchy := JArray([]),
      diffInserts := JArray([]),
      diffDeletes := JArray([]),
      globalVars := JObject([]),
      latestUser := "",
      latestUserId := JNull,
      commandTitle := "",
      showCommandTitle := false,
      hideCommandCode := false,
      hideCommandResult := false,
      isLockedInExamMode := false,
      iPythonMetadata := JNull,
      streamStates := JObject([]),
      datasetPreviewNameToCmdIdMap := JObject([]),
      nuid := nuid)
  }

  /** A record with its five per-cell fields blanked out; what is left is the fixed part. */
  function FixedPart(c: Command): Command {
    c.(origId := 0, guid := "", position := 0, command := "", nuid := "")
  }

  /**
    The list comprehension over `enumerate(fragments)`. `uuid(j)` is the value of
    the j-th call of `uuid.uuid4()`: each record draws its guid and then its nuid.
   */
  function Commands(n: int, fragments: seq<string>, uuid: nat -> string): (r: seq<Command>)
    ensures |r| == |fragments|
  {
    seq(|fragments|, i requires 0 <= i < |fragments| => Cell(n, fragments, uuid, i))
  }

  function Cell(n: int, fragments: seq<string>, uuid: nat -> string, i: nat): Command
    requires i < |fragments|
  {
    CommandRecord(n, i, uuid(2 * i), uuid(2 * i + 1), fragments[i])
  }

  datatype Notebook = Notebook(
    version: string,
    name: string,
    language: string,
    commands: seq<Command>,
    guid: string,
    origId: int)

  function NotebookRecord(name: string, language: string, commands: seq<Command>, guid: string, n: int): Notebook
  {
    Notebook(
      version := "NotebookV1",
      name := name,
      language := language,
      commands := commands,
      guid := guid,
      origId := n)
  }

  /** `"python" if output_file.suffix == ".py" else "scala"`. */
  function Language(outputFile: Path): string {
    if Suffix(Name(outputFile)) == ".py" then "python" else "scala"
  }

  /** Where `_convert_file` writes for the output file `outputFile`: `outputFile.with_suffix("." + language)`. */
  function WrittenPath(outputFile: Path): (r: Path)
    requires Name(outputFile) != ""
    ensures Parent(r) == Parent(outputFile)
    ensures Name(r) == Stem(Name(outputFile)) + "." + Language(outputFile)
    ensures '.' in Name(r)
  {
    var suffix := "." + Language(outputFile);
    assert ValidSuffix(suffix);
    var stem := Stem(Name(outputFile));
    var r := WithSuffix(outputFile, suffix).value;
    assert Name(r) == stem + suffix;
    assert Name(r)[|stem|] == '.';
    r
  }

  /** The file written for a well-formed output path is itself well formed. */
  lemma WrittenValid(outputFile: Path)
    requires ValidPath(outputFile) && Name(outputFile) != ""
    ensures ValidPath(WrittenPath(outputFile))
  {
    var name := Name(outputFile);
    var w := WrittenPath(outputFile);
    ExtendedComponentValid(name, Language(outputFile));
    assert Name(w) == Stem(name) + ("." + Language(outputFile));
    RenamedValid(outputFile, Name(w));
    assert w == Parent(outputFile) + [Name(w)];
  }

  /** A valid name's stem followed by `.` and a non-empty, separator-free extension is a valid name. */
  lemma ExtendedComponentValid(name: string, ext: string)
    requires ValidComponent(name) && ext != [] && '/' !in ext
    ensures ValidComponent(Stem(name) + ("." + ext))
  {
    var stem := Stem(name);
    forall i | 0 <= i < |stem| ensures stem[i] != '/' {
      assert stem[i] == name[i];
    }
    assert |"." + ext| >= 2;
  }

  /** The cell texts of a source notebook: the markers removed, then split on the delimiter. */
  function Fragments(text: string): seq<string> {
    Split(StripMarkers(text))
  }

  /** What `_convert_file` writes: the document and the path it goes to. */
  datatype Converted = Converted(path: Path, document: Notebook)

  /**
    `_convert_file(input_file, output_file)` for an input file whose text is `text`,
    with `n` the drawn origin base and `uuid` the successive `uuid4()` values.
   */
  function ConvertFile(text: string, outputFile: Path, n: int, uuid: nat -> string): (r: Converted)
    requires Name(outputFile) != ""
    requires OriginLow <= n < OriginHigh
    ensures r.document.language == "python" <==> Suffix(Name(outputFile)) == ".py"
    ensures r.document.language == "python" || r.document.language == "scala"
    ensures r.document.name == Stem(Name(outputFile))
    ensures Parent(r.path) == Parent(outputFile)
    ensures Name(r.path) == r.document.name + "." + r.document.language
  {
    Converted(WrittenPath(outputFile), Document(text, outputFile, n, uuid))
  }

  /** The `notebook` dict that `_convert_file` serialises. */
  function Document(text: string, outputFile: Path, n: int, uuid: nat -> string): Notebook {
    var fragments := Fragments(text);
    NotebookRecord(Stem(Name(outputFile)), Language(outputFile), Commands(n, fragments, uuid),
                   uuid(2 * |fragments|), n)
  }

  /** The fixed part shared by every command record of every notebook. */
  const Template: Command := FixedPart(CommandRecord(0, 0, "", "", ""))

  /** The five per-cell fields of a record. */
  lemma CommandFields(n: int, i: nat, guid: string, nuid: string, fragment: string)
    ensures var c := CommandRecord(n, i, guid, nuid, fragment);
      && c.origId == n + i && c.position == i + 1 && c.command == Trim(fragment)
      && c.guid == guid && c.nuid == nuid
  {
  }

  /** Apart from its five per-cell fields, every command record is the same constant. */
  lemma CommandFixedPart(n: int, i: nat, guid: string, nuid: string, fragment: string)
    ensures FixedPart(CommandRecord(n, i, guid, nuid, fragment)) == Template
  {
  }

  lemma CommandAt(n: int, fragments: seq<string>, uuid: nat -> string, i: nat)
    requires i < |fragments|
    ensures Commands(n, fragments, uuid)[i] == CommandRecord(n, i, uuid(2 * i), uuid(2 * i + 1), fragments[i])
  {
    assert Commands(n, fragments, uuid)[i] == Cell(n, fragments, uuid, i);
  }

  /** The enumeration: record `i` belongs to fragment `i`, numbered from `n` and from 1. */
  lemma CommandsNumbered(n: int, fragments: seq<string>, uuid: nat -> string)
    ensures var cs := Commands(n, fragments, uuid);
      forall i :: 0 <= i < |cs| ==>
        && cs[i].origId == n + i
        && cs[i].position == i + 1
        && cs[i].command == Trim(fragments[i])
        && cs[i].guid == uuid(2 * i)
        && cs[i].nuid == uuid(2 * i + 1)
  {
    var cs := Commands(n, fragments, uuid);
    forall i | 0 <= i < |cs|
      ensures cs[i].origId == n + i && cs[i].position == i + 1 && cs[i].command == Trim(fragments[i])
      ensures cs[i].guid == uuid(2 * i) && cs[i].nuid == uuid(2 * i + 1)
    {
      CommandAt(n, fragments, uuid, i);
      CommandFields(n, i, uuid(2 * i), uuid(2 * i + 1), fragments[i]);
    }
  }

  /** All records of a notebook agree outside their five per-cell fields. */
  lemma CommandsShareTemplate(n: int, fragments: seq<string>, uuid: nat -> string)
    ensures var cs := Commands(n, fragments, uuid);
      forall i :: 0 <= i < |cs| ==> FixedPart(cs[i]) == Template
  {
    var cs := Commands(n, fragments, uuid);
    forall i | 0 <= i < |cs| ensures FixedPart(cs[i]) == Template {
      CommandAt(n, fragments, uuid, i);
      CommandFixedPart(n, i, uuid(2 * i), uuid(2 * i + 1), fragments[i]);
    }
  }

  lemma CellIdentifiers(n: int, fragments: seq<string>, uuid: nat -> string, i: nat)
    requires i < |fragments|
    ensures Commands(n, fragments, uuid)[i].guid == uuid(2 * i)
    ensures Commands(n, fragments, uuid)[i].nuid == uuid(2 * i + 1)
  {
    CommandAt(n, fragments, uuid, i);
    CommandFields(n, i, uuid(2 * i), uuid(2 * i + 1), fragments[i]);
  }

  /**
    The records of a converted file: one per fragment, that is one more than the
    number of delimiter matches, in fragment order, numbered from `n` and from 1.
   */
  lemma ConvertFileCommands(text: string, outputFile: Path, n: int, uuid: nat -> string)
    requires Name(outputFile) != ""
    requires OriginLow <= n < OriginHigh
    ensures var d := ConvertFile(text, outputFile, n, uuid).document;
      && |d.commands| == |FindAll(StripMarkers(text))| + 1
      && d.origId == n
      && d.version == "NotebookV1"
      && d.guid == uuid(2 * |d.commands|)
      && forall i :: 0 <= i < |d.commands| ==>
           && d.commands[i].origId == d.origId + i
           && d.commands[i].position == i + 1
           && d.commands[i].command == Trim(Fragments(text)[i])
           && d.commands[i].guid == uuid(2 * i)
           && d.commands[i].nuid == uuid(2 * i + 1)
           && FixedPart(d.commands[i]) == Template
  {
    SplitCount(StripMarkers(text));
    var fragments := Fragments(text);
    var d := ConvertFile(text, outputFile, n, uuid).document;
    assert d.commands == Commands(n, fragments, uuid) && d.origId == n;
    CommandsNumbered(n, fragments, uuid);
    CommandsShareTemplate(n, fragments, uuid);
  }

  /**
    A command's text is a slice of its fragment with only whitespace cut off
    around it, and it contains no delimiter.
   */
  lemma CommandTextFromFragment(f: string)
    requires DelimiterFree(f)
    ensures TrimOffset(f) + |Trim(f)| <= |f|
    ensures Trim(f) == f[TrimOffset(f)..TrimOffset(f) + |Trim(f)|]
    ensures SpaceBetween(f, 0, TrimOffset(f)) && SpaceBetween(f, TrimOffset(f) + |Trim(f)|, |f|)
    ensures DelimiterFree(Trim(f))
  {
    TrimIsSlice(f);
    var a := TrimOffset(f);
    var c := Trim(f);
    forall x, y | 0 <= x <= y <= |c| ensures !IsDelimiter(c[x..y]) {
      SliceOfSlice(f, a, a + |c|, x, y);
    }
  }

  ghost predicate Injective(uuid: nat -> string) {
    forall a: nat, b: nat :: a != b ==> uuid(a) != uuid(b)
  }

  /**
    With distinct `uuid4()` values, the guids and nuids of all records and the
    guid drawn after them are pairwise distinct.
   */
  lemma CommandIdentifiersDistinct(n: int, fragments: seq<string>, uuid: nat -> string)
    requires Injective(uuid)
    ensures var cs, m := Commands(n, fragments, uuid), |fragments|;
      && (forall i, j :: 0 <= i < j < m ==> cs[i].guid != cs[j].guid && cs[i].nuid != cs[j].nuid)
      && (forall i, j :: 0 <= i < m && 0 <= j < m ==> cs[i].guid != cs[j].nuid)
      && (forall i :: 0 <= i < m ==> uuid(2 * m) != cs[i].guid && uuid(2 * m) != cs[i].nuid)
  {
    var cs, m := Commands(n, fragments, uuid), |fragments|;
    forall i, j | 0 <= i < j < m ensures cs[i].guid != cs[j].guid && cs[i].nuid != cs[j].nuid {
      CellIdentifiers(n, fragments, uuid, i);
      CellIdentifiers(n, fragments, uuid, j);
      assert uuid(2 * i) != uuid(2 * j) && uuid(2 * i + 1) != uuid(2 * j + 1);
    }
    forall i, j | 0 <= i < m && 0 <= j < m ensures cs[i].guid != cs[j].nuid {
      CellIdentifiers(n, fragments, uuid, i);
      CellIdentifiers(n, fragments, uuid, j);
      if i <= j {
        assert 2 * i < 2 * j + 1;
      } else {
        assert 2 * i > 2 * j + 1;
      }
      assert uuid(2 * i) != uuid(2 * j + 1);
    }
    forall i | 0 <= i < m ensures uuid(2 * m) != cs[i].guid && uuid(2 * m) != cs[i].nuid {
      CellIdentifiers(n, fragments, uuid, i);
      assert 2 * m > 2 * i + 1;
      assert uuid(2 * m) != uuid(2 * i) && uuid(2 * m) != uuid(2 * i + 1);
    }
  }

  /** The notebook's guid and the guids and nuids of its records are pairwise distinct. */
  lemma IdentifiersDistinct(text: string, outputFile: Path, n: int, uuid: nat -> string)
    requires Name(outputFile) != ""
    requires OriginLow <= n < OriginHigh
    requires Injective(uuid)
    ensures var d := ConvertFile(text, outputFile, n, uuid).document;
      && (forall i, j :: 0 <= i < j < |d.commands| ==>
            d.commands[i].guid != d.commands[j].guid && d.commands[i].nuid != d.commands[j].nuid)
      && (forall i, j :: 0 <= i < |d.commands| && 0 <= j < |d.commands| ==> d.commands[i].guid != d.commands[j].nuid)
      && (forall i :: 0 <= i < |d.commands| ==> d.guid != d.commands[i].guid && d.guid != d.commands[i].nuid)
  {
    var fragments := Fragments(text);
    var d := ConvertFile(text, outputFile, n, uuid).document;
    assert d.commands == Commands(n, fragments, uuid) && d.guid == uuid(2 * |fragments|);
    CommandIdentifiersDistinct(n, fragments, uuid);
  }

  /** Every identifier a document carries: its guid and the guids and nuids of its records. */
  function Identifiers(d: Notebook): set<string> {
    {d.guid}
      + (set i | 0 <= i < |d.commands| :: d.commands[i].guid)
      + (set i | 0 <= i < |d.commands| :: d.commands[i].nuid)
  }

  /**
    The identifiers of a notebook whose `m` records drew the values `2i` and
    `2i + 1` of `uuid`, and whose guid is value `2m`, are all among those values.
   */
  lemma NotebookIdentifiersDrawn(d: Notebook, uuid: nat -> string)
    requires d.guid == uuid(2 * |d.commands|)
    requires forall i | 0 <= i < |d.commands| :: d.commands[i].guid == uuid(2 * i) && d.commands[i].nuid == uuid(2 * i + 1)
    ensures forall x | x in Identifiers(d) :: exists j: nat :: j <= 2 * |d.commands| && uuid(j) == x
  {
    var cs := d.commands;
    forall x | x in Identifiers(d) ensures exists j: nat :: j <= 2 * |cs| && uuid(j) == x {
      if x == d.guid {
        assert uuid(2 * |cs|) == x;
      } else if x in (set i | 0 <= i < |cs| :: cs[i].guid) {
        var i :| 0 <= i < |cs| && cs[i].guid == x;
        assert uuid(2 * i) == x;
      } else {
        var i :| 0 <= i < |cs| && cs[i].nuid == x;
        assert uuid(2 * i + 1) == x;
      }
    }
  }

  /** The identifiers of a document are all drawn from its own `uuid4()` values. */
  lemma DocumentIdentifiers(text: string, outputFile: Path, n: int, uuid: nat -> string)
    ensures forall x | x in Identifiers(Document(text, outputFile, n, uuid)) ::
      exists j: nat :: j <= 2 * |Fragments(text)| && uuid(j) == x
  {
    var fragments := Fragments(text);
    var d := Document(text, outputFile, n, uuid);
    assert d.commands == Commands(n, fragments, uuid) && d.guid == uuid(2 * |fragments|);
    CommandsNumbered(n, fragments, uuid);
    NotebookIdentifiersDrawn(d, uuid);
  }

  /** Appending `.` and a dot-free extension to a non-empty stem gives that stem and suffix back. */
  lemma StemOfExtended(stem: string, ext: string)
    requires stem != [] && ext != [] && '.' !in ext
    ensures Stem(stem + "." + ext) == stem
    ensures Suffix(stem + "." + ext) == "." + ext
  {
    var name := stem + "." + ext;
    assert name[|stem|] == '.';
    assert forall j :: |stem| < j < |name| ==> name[j] == ext[j - |stem| - 1];
    assert LastDot(name) == |stem| by {
      LastDotIs(name, |stem|);
    }
    assert HasSuffix(name);
    assert name[..|stem|] == stem && name[|stem|..] == "." + ext;
  }

  lemma LastDotIs(s: string, i: nat)
    requires i < |s| && s[i] == '.'
    requires forall j :: i < j < |s| ==> s[j] != '.'
    ensures LastDot(s) == i
  {
    LastDotIsLast(s);
  }

  /**
    Round trip: the written file's stem is the notebook's name and its suffix is
    `.` followed by the notebook's language.
   */
  lemma WrittenPathRoundTrip(text: string, outputFile: Path, n: int, uuid: nat -> string)
    requires Name(outputFile) != ""
    requires OriginLow <= n < OriginHigh
    ensures var r := ConvertFile(text, outputFile, n, uuid);
      && Stem(Name(r.path)) == r.document.name
      && Suffix(Name(r.path)) == "." + r.document.language
  {
    ExtendedNameRoundTrip(outputFile);
  }

  lemma ExtendedNameRoundTrip(outputFile: Path)
    requires Name(outputFile) != ""
    ensures var stem, language := Stem(Name(outputFile)), Language(outputFile);
      Stem(stem + "." + language) == stem && Suffix(stem + "." + language) == "." + language
  {
    StemSuffixSplit(Name(outputFile));
    StemOfExtended(Stem(Name(outputFile)), Language(outputFile));
  }
}
