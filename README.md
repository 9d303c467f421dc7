# databricks-convert, modelled in Dafny

`databricks_convert/convert.py` has one class, `DatabricksConvert`. It turns
source notebooks (`.py` and other plain-text files) into a Databricks `.dbc`
archive. The work happens in two phases:

1. **Staging.** Each input file is converted into a Databricks notebook
   document and written into a temporary staging directory. A directory input
   mirrors its tree there.
2. **Archiving.** The staging directory is zipped.

This project models that class and proves what each step does.

- **`Paths`**: the parts of `pathlib.PurePath` the code uses: `name`, `parent`,
  `joinpath`, `relative_to`, `suffix`, `stem`, `with_suffix` and `str`. A path
  is the sequence of its components.
- **`Text`**: Python's whitespace test, `str.strip()`, and
  `str.replace(old, "")`. It also holds the two marker removals of
  `_convert_file`.
- **`CommandDelimiter`**: the cell delimiter `[#\/\s]+COMMAND -+` as a regular
  language. It also defines the leftmost-greedy search the regex engine does,
  and `re.split` / `re.findall` with that pattern.
- **`Json`, `Notebook`**: the command record and the notebook record that
  `_convert_file` builds, and `_convert_file` itself. `ConvertFile` gives the
  document and the path it is written to.
- **`Staging`**:
  - The staging directory `temp_path` is a value: its directories, and its
    files mapped to the documents they hold.
  - `mkdir(exist_ok=True)` and `write_text` are modelled, with their
    exceptions.
  - The loop of `_convert_directory` is modelled as a function of the glob
    matches, taken in glob order.
- **`Archive`**: the entries `_create_zip` writes. Directory entries come
  first, named `str(directory) + "/"` with no data. File entries come next,
  each holding the staged document.
- **`Converter`**: the class `DatabricksConvert`. It has its three paths and
  the methods `convert`, `_convert_directory` and `_create_zip`. The two loops
  of `_create_zip` are methods with loop invariants. Each method is proved
  against the functions of `Staging` and `Archive`.

Nondeterminism becomes a parameter or a ghost output:

- **Random draws.** `random.randrange` and `uuid.uuid4()` become parameters:
  - `Origin(draw)` maps any draw into `[100000000000000, 999999999999999)`.
  - `uuid(j)` is the j-th `uuid4()` of one `_convert_file` call.
  - `Conversions(draws, uuids)` is the document builder for the whole run.
    The staging lemmas hold for every builder.
- **Glob order.** The glob matches of the input directory are an input, in
  glob order.
- **Iteration order.** Two orders are chosen nondeterministically (`:|`):
  - the iteration order of `list(set(...))`;
  - the order of the second glob, over the staging directory.

  `CreateZip` and `Convert` return these orders as ghost outputs. They prove
  that each order lists its set exactly once.

Behaviour of the code, stated and proved as it is written:

- **`mkdir` without `parents=True`.** `_convert_directory` calls `mkdir`
  without `parents=True`, so a match nested two levels below the root fails
  with `FileNotFoundError` unless an earlier match created its parent.
  `NestedOnlyTreeFails` exhibits such an input.
- **Only immediate parents are listed.** `_create_zip` lists only immediate
  parents of matches. When staging succeeds, every staged directory and every
  ancestor of every match still gets an entry (`StagedDirectoriesListed`).
- **Suffixes.** Every suffix other than `.py` yields language `scala`, so
  `x.sc` and `x.scala` are both written to `x.scala`, and the later match in
  glob order wins (`StageFromLastWrite`).
- **Dotted directory names.** A directory whose name contains a dot is itself
  a glob match, and reading it raises `IsADirectoryError`:
  - A dotted subdirectory of the input is already matched by the staging
    glob, so `read_text` fails on it during staging (the `Folder` case of
    `StageEntry`) and no archive is written.
  - Only a dotted input root reaches the archive step, because it is staged
    as the top staging directory without being read. There it is matched
    again and `WriteFileEntries` returns the error (`DottedRootIsMatched`,
    for a root named like `a.b`).
- **No skipping.** The code does not skip hidden directories and does not
  skip files that fail to convert. `.ipynb` input is not parsed as JSON: it is
  split as text, like any other suffix.
- **The unused parameter.** `_convert_directory` ignores its `output_path`
  parameter and writes below `self.temp_path`. The model keeps only the
  staging tree.

## Model

| member | source | states |
|---|---|---|
| Converter.DatabricksConvert.constructor | databricks_convert/convert.py:12-15 | the object keeps the input path, the output path and the staging directory it was given |
| Converter.DatabricksConvert.Convert | databricks_convert/convert.py:17-31 | a regular file always converts: the archive goes to `output_path/<stem>.dbc` and holds exactly `./` then the converted file; for a directory, a staging error is the result; otherwise the run succeeds iff the input name is non-empty and every match under the staging directory is a file, the entries are the directory entries of all immediate parents followed by every match's file entry, each listed once, and a failing zip step raises `IsADirectoryError` for a match that is a directory; when the input paths are paths pathlib builds, no two entries of the archive share a name |
| Converter.ArchivePath | databricks_convert/convert.py:28-31 | the archive path exists iff the input has a name, and is then the output path joined with the input stem plus `.dbc` |
| Converter.DatabricksConvert.ConvertDirectory | databricks_convert/convert.py:33-42 | the loop computes exactly `StageDirectory`: one `mkdir` plus `_convert_file` per match in glob order, stopping at the first exception |
| Staging.StagedPath | databricks_convert/convert.py:38-40 | the staging path is `(root / rel).relative_to(root.parent)`: the root's name followed by the match's path below the root |
| Staging.StageEntry | databricks_convert/convert.py:38-42 | one loop turn: `mkdir` of the staging parent, then reading the match and writing its document under the language suffix |
| Staging.StageFrom | databricks_convert/convert.py:37-42 | the loop over the matches in glob order, ending at the first exception |
| Staging.StageDirectory | databricks_convert/convert.py:33-42 | `_convert_directory` on the fresh staging directory |
| Staging.Conversions | databricks_convert/convert.py:54-119 | the documents `_convert_file` builds, call `k` using draw `k` for the origin base and its own stream of `uuid4()` values |
| Staging.MakeDir | databricks_convert/convert.py:41 | `mkdir(exist_ok=True)` succeeds iff the path is already a directory, or is not a file and its parent is a directory; on success it is a directory, files are untouched and at most that one directory is added; the error names the path |
| Staging.MakeDirWellFormed | databricks_convert/convert.py:41 | `mkdir` keeps the staging tree well formed (every entry's parent is a directory, no path is both) |
| Staging.NestedOnlyTreeFails | databricks_convert/convert.py:41 | a tree whose only match is `s/x.py` below the root fails with `FileNotFoundError` for the staging directory `r/s`, because `mkdir` has no `parents=True` |
| Staging.WriteFile | databricks_convert/convert.py:123-125 | `write_text` succeeds iff the target is not a directory and its parent is; it then replaces or adds exactly that file and leaves the directories alone |
| Staging.WriteFileWellFormed | databricks_convert/convert.py:123-125 | writing a file keeps the staging tree well formed |
| Staging.StageSingleFile | databricks_convert/convert.py:21-24 | converting a single regular file always succeeds and leaves exactly one staged file, directly under the staging root |
| Staging.StageEntryEffect | databricks_convert/convert.py:37-42 | a successful turn read a file with a non-empty name, added at most the staging parent as a directory, and stored the built document at the written path |
| Staging.StageEntryConverts | databricks_convert/convert.py:44-125 | with the run's random draws, a turn writes exactly `ConvertFile`'s document to exactly `ConvertFile`'s path |
| Staging.StageFromWellFormed | databricks_convert/convert.py:37-42 | the staging loop preserves well-formedness |
| Staging.StageFromPopulated | databricks_convert/convert.py:37-42 | the staging loop preserves "every staged directory holds a staged file whose name contains a dot" |
| Staging.StageFromWrites | databricks_convert/convert.py:37-42 | after a successful loop every match was a file and its converted path is staged, holding the document built for the last match converted to that path; no staged path is removed, and a staged file that no match writes keeps its document |
| Staging.StageFromStaged | databricks_convert/convert.py:37-42 | every match from the current one on is a file whose converted path ends up staged; no staged directory or file path is removed |
| Staging.StageFromKeeps | databricks_convert/convert.py:37-42 | a staged file that no remaining match is converted into keeps its document to the end of the loop |
| Staging.StageFromLastWrite | databricks_convert/convert.py:37-42 | the document of the last match converted into a path is what that path holds after the loop, so a later `x.scala` overwrites an earlier `x.sc` |
| Staging.StagedFiles | databricks_convert/convert.py:33-42 | after a successful `_convert_directory`, every staged file is the converted path of a match, and holds the document built from the text of the last match converted into it |
| Staging.StageFromOnlyWrites | databricks_convert/convert.py:37-42 | every staged file was there before or is the converted path of one of the matches |
| Staging.Origin | databricks_convert/convert.py:54 | the origin base lies in `[100000000000000, 999999999999999)` and equals the base plus the draw for any draw within the range |
| Staging.ConversionsDisjoint | databricks_convert/convert.py:54-119 | with distinct `uuid4()` values across the run, the documents of two different `_convert_file` calls share no guid or nuid |
| Text.StripMarkersBounds | databricks_convert/convert.py:49-53 | removing `# MAGIC ` and the header never lengthens the text, and text holding neither is unchanged |
| Text.StripHeaderLine | databricks_convert/convert.py:49-53 | a notebook that starts with `# Databricks notebook source`, contains no `# MAGIC ` and has no second header loses exactly that header |
| Text.StripMarkers | databricks_convert/convert.py:49-53 | the text `_convert_file` splits: every `# MAGIC ` removed, then every `# Databricks notebook source` |
| Text.RemoveAll | databricks_convert/convert.py:51-52 | `str.replace(old, "")`: occurrences removed left to right without overlap; the result is never longer |
| Text.RemoveAllAbsent | databricks_convert/convert.py:51-52 | `str.replace(old, "")` leaves text without `old` unchanged |
| Text.RemoveAllFirst | databricks_convert/convert.py:51-52 | `str.replace(old, "")` removes the leftmost occurrence and continues after it |
| Text.RemoveAllShrinks | databricks_convert/convert.py:51-52 | when `old` occurs anywhere in the text, `str.replace(old, "")` makes it at least `len(old)` shorter |
| Text.TrimIsSlice | databricks_convert/convert.py:63 | `strip()` yields a slice of its input, and everything it cuts off on either side is whitespace |
| Text.Trim | databricks_convert/convert.py:63 | the stripped text neither starts nor ends with whitespace |
| Text.IsSpace | databricks_convert/convert.py:63 | the whitespace `strip()` and `\s` agree on within ASCII: space, `\t`, `\n`, `\v`, `\f`, `\r` and 0x1C-0x1F |
| Text.TrimUnchanged | databricks_convert/convert.py:63 | a text without leading or trailing whitespace is left unchanged by `strip()` |
| Text.TrimIdempotent | databricks_convert/convert.py:63 | stripping twice is stripping once |
| Text.TrimAllSpace | databricks_convert/convert.py:63 | a fragment made only of whitespace becomes the empty command |
| CommandDelimiter.ClassRunMaximal | databricks_convert/convert.py:110 | the greedy `[#\/\s]+` run consumes class characters and stops at the first non-class character |
| CommandDelimiter.DashRunMaximal | databricks_convert/convert.py:110 | the greedy `-+` run consumes dashes and stops at the first non-dash |
| CommandDelimiter.MatchLength | databricks_convert/convert.py:110 | the length of the greedy match of `[#\/\s]+COMMAND -+` at a position, 0 when there is none and at least 10 otherwise, within the text |
| CommandDelimiter.NextMatch | databricks_convert/convert.py:110 | the position of the next match at or after a position, which is a match position inside the text |
| CommandDelimiter.Split | databricks_convert/convert.py:110 | `re.split` with the pattern: the fragments between successive leftmost matches |
| CommandDelimiter.FindAll | databricks_convert/convert.py:110 | `re.findall` with the pattern: the successive leftmost matches |
| CommandDelimiter.MatchSound | databricks_convert/convert.py:110 | each match the engine reports is a word of `[#\/\s]+COMMAND -+` |
| CommandDelimiter.IsDelimiter | databricks_convert/convert.py:110 | the language of `[#\/\s]+COMMAND -+`: one or more class characters, `COMMAND `, then one or more dashes |
| CommandDelimiter.MatchComplete | databricks_convert/convert.py:110 | every delimiter word starting at a position is no longer than the match the engine reports there (greediness) |
| CommandDelimiter.NextMatchLeftmost | databricks_convert/convert.py:110 | the reported match is the leftmost: no match starts before it |
| CommandDelimiter.SplitCount | databricks_convert/convert.py:110 | `re.split` returns one fragment more than `re.findall` finds delimiters |
| CommandDelimiter.SplitReconstructs | databricks_convert/convert.py:110 | putting the found delimiters back between the fragments gives the text back |
| CommandDelimiter.FindAllMatch | databricks_convert/convert.py:110 | every removed delimiter is a word of the pattern's language |
| CommandDelimiter.SplitFragmentsFree | databricks_convert/convert.py:110 | no slice of any fragment is a delimiter |
| CommandDelimiter.SplitWithoutKeyword | databricks_convert/convert.py:110 | text in which `COMMAND -` never occurs is one fragment, with no delimiter found |
| Notebook.ConvertFile | databricks_convert/convert.py:44-125 | language is `python` iff the output suffix is `.py` and `scala` otherwise; the notebook name is the output stem; the file is written beside the output file, named stem + `.` + language |
| Notebook.Language | databricks_convert/convert.py:113 | `python` for an output suffix `.py`, `scala` for every other suffix |
| Notebook.Document | databricks_convert/convert.py:114-121 | the `notebook` dict: version, the output stem as name, the language, the records, the guid drawn after them and the origin base |
| Notebook.NotebookRecord | databricks_convert/convert.py:114-121 | the `notebook` dict's six keys, with `version` fixed to `NotebookV1` |
| Notebook.Fragments | databricks_convert/convert.py:49-110 | the cell texts: both markers removed, then `re.split` on the delimiter |
| Notebook.Commands | databricks_convert/convert.py:55-111 | the list comprehension: one record per fragment of `re.split`, in order, with as many records as fragments |
| Notebook.CommandRecord | databricks_convert/convert.py:56-109 | one command dict: the constant fields of the source with origId `n + i`, position `i + 1`, the stripped fragment and two uuids |
| Notebook.ConvertFileCommands | databricks_convert/convert.py:55-121 | one record per fragment (the delimiter matches plus one); record `i` has origId `n + i`, position `i + 1`, the stripped fragment `i` as command and the `2i`-th and `2i+1`-th uuids; all other fields are the fixed template; the notebook has origId `n`, version `NotebookV1` and the uuid drawn after the records |
| Notebook.CommandsNumbered | databricks_convert/convert.py:55-111 | the list comprehension over `enumerate`: record `i` comes from fragment `i`, numbered from `n` and from 1, holding the uuids it drew |
| Notebook.CommandsShareTemplate | databricks_convert/convert.py:56-109 | apart from its five per-cell fields, every record is the same constant |
| Notebook.CommandFixedPart | databricks_convert/convert.py:56-109 | the fixed part of any record built from any inputs is the template |
| Notebook.CommandTextFromFragment | databricks_convert/convert.py:63 | a command is its fragment with only surrounding whitespace removed, and contains no delimiter |
| Notebook.CommandIdentifiersDistinct | databricks_convert/convert.py:59-108 | with distinct `uuid4()` values, all guids and nuids of the records are pairwise distinct, and differ from the uuid drawn next |
| Notebook.IdentifiersDistinct | databricks_convert/convert.py:59-119 | with distinct `uuid4()` values, the notebook guid and the guids and nuids of its records are pairwise distinct |
| Notebook.DocumentIdentifiers | databricks_convert/convert.py:59-119 | every guid and nuid a document carries is one of the first `2m + 1` `uuid4()` values of its own call, `m` being its number of records |
| Notebook.WrittenPathRoundTrip | databricks_convert/convert.py:113-123 | the written file's stem is the notebook name and its suffix is `.` + the language |
| Notebook.WrittenPath | databricks_convert/convert.py:123 | the converted file is written in the output file's directory, named the output stem followed by `.` and the language, so its name contains a dot |
| Notebook.WrittenValid | databricks_convert/convert.py:123 | the written path of a path pathlib builds is again one: the new name is non-empty, not `.` and free of `/` |
| Paths.WithSuffix | databricks_convert/convert.py:123 | `with_suffix` raises `ValueError` iff the suffix is invalid (it holds `/`, is exactly `.`, or is non-empty without a leading dot) or the name is empty; otherwise it keeps the parent and replaces the name's suffix |
| Paths.Name | databricks_convert/convert.py:23-30 | `.name` of a path pathlib builds is empty exactly for the empty path, and is otherwise a valid component (non-empty, not `.`, free of `/`) |
| Paths.Parent | databricks_convert/convert.py:39-41 | `.parent`: the path is its parent followed by its name, and the empty path is its own parent |
| Paths.Join | databricks_convert/convert.py:38-39 | `(p / q).relative_to(p)` gives back `q`, and joining one component gives a path with that name whose parent is `p` |
| Paths.Suffix | databricks_convert/convert.py:113 | `.suffix`: non-empty exactly when `0 < name.rfind('.') < len(name) - 1`, and then a dot and at least one more character ending the name |
| Paths.Stem | databricks_convert/convert.py:116 | `.stem`: a prefix of the name, equal to the whole name exactly when the rule `0 < rfind('.') < len - 1` finds no suffix |
| Paths.PathString | databricks_convert/convert.py:137-144 | `str(path)` of a relative path: the components joined with `/`, and `.` for the empty path |
| Paths.StemSuffixSplit | databricks_convert/convert.py:113-116 | a name is its stem followed by its suffix; a suffix is a dot plus a dot-free, non-empty extension, and a stem is non-empty when there is a suffix |
| Paths.RelativeToParent | databricks_convert/convert.py:39 | `(root / rel).relative_to(root.parent)` always succeeds and is the root's name followed by `rel` |
| Paths.RelativeTo | databricks_convert/convert.py:39 | `relative_to` succeeds iff the base is a prefix, and the base followed by the result is the path |
| Paths.PathStringInjective | databricks_convert/convert.py:137-144 | `str` maps distinct valid paths to distinct names |
| Paths.PathStringNoTrailingSlash | databricks_convert/convert.py:144 | `str` of a valid path never ends in `/` |
| Converter.DatabricksConvert.CreateZip | databricks_convert/convert.py:127-148 | the directory entries of all immediate parents, each once, then the file entries of all matches, each once; fails iff some match is a directory, with that match as the error |
| Converter.DatabricksConvert.WriteDirectoryEntries | databricks_convert/convert.py:131-140 | for the set `directories`, one empty entry `str(d) + "/"` per directory in the set's iteration order, each directory exactly once: as many entries as directories, every directory's entry present, and every entry empty |
| Converter.DatabricksConvert.WriteFileEntries | databricks_convert/convert.py:142-148 | one entry per match holding the staged document, in glob order, each match once; succeeds iff every match is a file, and otherwise raises `IsADirectoryError` for a match that is a directory |
| Archive.Matches | databricks_convert/convert.py:142 | the recursive glob `**/*.*` of the staging directory: every staged directory or file whose name contains a dot |
| Archive.ParentDirs | databricks_convert/convert.py:131-133 | `set(x.parent.relative_to(input_path) for x in glob)`: the immediate parents of the matches |
| Archive.DirEntries | databricks_convert/convert.py:136-140 | the directory entries in iteration order, one per directory |
| Archive.DirEntryName | databricks_convert/convert.py:137 | `str(directory) + "/"`: a name ending in `/` whose prefix is the directory's string; its promises are `DirEntryNameInjective` and `DirNameIsNotFileName` |
| Archive.DirEntryNameInjective | databricks_convert/convert.py:131-140 | two valid directories with the same `str(d) + "/"` entry name are the same directory |
| Archive.DirNameIsNotFileName | databricks_convert/convert.py:136-148 | no directory entry name `str(d) + "/"` is the name `str(p)` of a file entry for a valid path |
| Archive.FileEntries | databricks_convert/convert.py:142-148 | the file entries in glob order, one per match, each named `str(path)` and holding that file's document |
| Archive.ArchiveNamesDistinct | databricks_convert/convert.py:131-148 | for a staging tree of paths pathlib builds (which `StageFromValid` proves for every staged tree, and which `Convert` uses), no two archive entries share a name: directory names end in `/`, file names never do, and both are injective |
| Archive.StageFromValid | databricks_convert/convert.py:37-42 | when the input root and every match are paths pathlib builds, the staging loop creates only such paths |
| Archive.StagedDirectoryValid | databricks_convert/convert.py:33-42 | the tree `_convert_directory` stages from valid paths holds only valid paths |
| Archive.StageSingleFileValid | databricks_convert/convert.py:21-24 | the tree the file branch stages from a valid input path holds only valid paths |
| Archive.DirEntriesListed | databricks_convert/convert.py:136-140 | the directory entries of an enumeration of a set are as many as the set's elements, include every element's empty entry, and are all empty |
| Archive.RootMatchGivesDotEntry | databricks_convert/convert.py:131-137 | a match directly under the staging root gives the directory entry `./` |
| Archive.SingleFileArchive | databricks_convert/convert.py:127-148 | a staging tree with a single file directly under the root archives as exactly `./` followed by that file |
| Archive.AncestorsAreDirs | databricks_convert/convert.py:41 | in a well-formed staging tree every proper prefix of an entry is a directory |
| Archive.StagedDirectoriesListed | databricks_convert/convert.py:131-137 | after a successful staging every staged directory, and every proper ancestor of every match, is the immediate parent of some match, so it gets a directory entry |
| Archive.TopDirectoryIsMatched | databricks_convert/convert.py:142-148 | in a well-formed tree, a top folder with a dot in its name holding a staged file is a glob match and a directory, not a file |
| Converter.DottedRootIsMatched | databricks_convert/convert.py:142-148 | after staging a non-empty directory whose root name contains a dot, the staged root folder is a glob match that is a directory, so `read_text` on it fails |

## Left out

- File I/O is modelled as a value. Reading the input is the text of each glob match, or `Folder` for a matched directory. The staging directory is the `Tree` value that the steps pass along. The existence and writability of `output_path` are not modelled.
- The archive's binary format is not modelled: the zip container, deflate compression, `ZipInfo` flags and attributes. An entry is its name and its data. A failing `_create_zip` leaves a partly written archive; the model returns only the error.
- File data is not modelled as JSON text. `json.dumps(notebook, indent=4)` and the `read_text` that reads it back are represented by the notebook value itself.
- Randomness is not modelled: `random.randrange` and `uuid.uuid4()` values are parameters, as described above. `Converter.DatabricksConvert.Convert` takes the document builder as a parameter.
- Floating point is not modelled: `position` holds the whole number `i + 1` rather than a Python float.
- Unicode is not modelled. Whitespace for `\s` and `str.strip()` is its ASCII part. Characters are Dafny characters, with no encoding.
- Pathlib details are left out. The anchor of absolute paths, `.` and `..` handling, and symbolic links are not modelled. `suffix`/`stem` follow the rule `0 < rfind('.') < len(name) - 1` of CPython 3.12 and earlier.
- Operating-system errors are not all modelled. Only the error kinds the staging steps can raise are kept (`FileNotFoundError`, `FileExistsError`, `NotADirectoryError`, `IsADirectoryError`, and `ValueError` for an empty name). Permission errors and the like are not modelled, and neither is the `UnicodeDecodeError` that `read_text` in `_convert_file` raises for a matched file that is not valid UTF-8 (a `logo.png`, say), which ends the whole directory conversion.
- `databricks_convert/__main__.py` (argument parsing) is not part of this model.
- Converter.DatabricksConvert.Convert: distinct entry names are promised only when the input root and every match are paths pathlib builds (`ValidInput`), because a `Path` here is any sequence of strings, while pathlib never builds a component that is empty, is `.` or holds `/`.
- Text.RemoveAllShrinks: states a lower bound on the shortening for one occurrence, not the exact length `len(s) - count * len(old)`, because occurrences are not counted in this model.
- The `output_path` parameter of `_convert_directory` is not modelled, because the code never reads it.
