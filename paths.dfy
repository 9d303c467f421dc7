/**
  Pure path manipulation in the style of Python's `pathlib.PurePath`.
  A path is the sequence of its components; the anchor (`/` or nothing) is
  not represented, so `Path('.')` and `Path('/')` are both the empty sequence.
 */
module Paths {
  import opened Wrappers

  type Path = seq<string>

  /** A component as pathlib keeps it: non-empty, no separator, never `.`. */
  predicate ValidComponent(c: string) {
    c != "" && c != "." && '/' !in c
  }

  predicate ValidPath(p: Path) {
    forall i :: 0 <= i < |p| ==> ValidComponent(p[i])
  }

  /** `PurePath.name`: the last component, or "" for the empty path. */
  function Name(p: Path): (r: string)
    ensures p != [] ==> r == p[|p| - 1]
    ensures p == [] ==> r == ""
    ensures ValidPath(p) ==> (r == "" <==> p == [])
    ensures ValidPath(p) && p != [] ==> ValidComponent(r)
  {
    if p == [] then "" else p[|p| - 1]
  }

  /** `PurePath.parent`: drops the last component; the empty path is its own parent. */
  function Parent(p: Path): (r: Path)
    ensures p != [] ==> p == r + [Name(p)]
    ensures p == [] ==> r == []
  {
    if p == [] then [] else p[..|p| - 1]
  }

  /** `PurePath.joinpath`. */
  function Join(p: Path, q: Path): (r: Path)
    ensures RelativeTo(r, p) == Some(q)
    ensures |q| == 1 ==> Name(r) == q[0] && Parent(r) == p
  {
    p + q
  }

  /** `PurePath.relative_to(base)`: Python raises ValueError when `base` is not a prefix. */
  function RelativeTo(p: Path, base: Path): (r: Option<Path>)
    ensures r.Some? <==> (|base| <= |p| && p[..|base|] == base)
    ensures r.Some? ==> base + r.value == p
  {
    if |base| <= |p| && p[..|base|] == base then Some(p[|base|..]) else None
  }

  /** Index of the last '.' in `s`, as `str.rfind('.')` (-1 when there is none). */
  function LastDot(s: string): (i: int)
    ensures -1 <= i < |s|
    ensures i >= 0 ==> s[i] == '.'
  {
    if s == [] then -1
    else if s[|s| - 1] == '.' then |s| - 1
    else LastDot(s[..|s| - 1])
  }

  /** No dot follows the one `LastDot` finds. */
  lemma {:induction false} LastDotIsLast(s: string)
    ensures forall j :: LastDot(s) < j < |s| ==> s[j] != '.'
  {
    if s != [] && s[|s| - 1] != '.' {
      var s' := s[..|s| - 1];
      LastDotIsLast(s');
      assert forall j :: LastDot(s) < j < |s'| ==> s[j] == s'[j];
    }
  }

  /** True when the name has a suffix in pathlib's sense (`0 < rfind('.') < len - 1`). */
  predicate HasSuffix(name: string) {
    0 < LastDot(name) < |name| - 1
  }

  /** `PurePath.suffix` of a name. */
  function Suffix(name: string): (r: string)
    ensures r != "" <==> HasSuffix(name)
    ensures r != "" ==> 2 <= |r| < |name| && r[0] == '.' && name == name[..|name| - |r|] + r
  {
    if HasSuffix(name) then name[LastDot(name)..] else ""
  }

  /** `PurePath.stem` of a name. */
  function Stem(name: string): (r: string)
    ensures |r| <= |name| && r == name[..|r|]
    ensures r == name <==> !HasSuffix(name)
  {
    if HasSuffix(name) then name[..LastDot(name)] else name
  }

  lemma {:induction false} StemSuffixSplit(name: string)
    ensures Stem(name) + Suffix(name) == name
    ensures Suffix(name) == "" || (Suffix(name)[0] == '.' && |Suffix(name)| >= 2 && '.' !in Suffix(name)[1..])
    ensures Suffix(name) != "" ==> Stem(name) != ""
  {
    if HasSuffix(name) {
      LastDotIsLast(name);
      var i := LastDot(name);
      assert name[..i] + name[i..] == name;
      var s := name[i..];
      forall j | 0 <= j < |s[1..]| ensures s[1..][j] != '.' {
        assert s[1..][j] == name[i + 1 + j];
      }
    }
  }

  /** A suffix `with_suffix` accepts: empty, or a dot followed by something, with no separator. */
  predicate ValidSuffix(suffix: string) {
    '/' !in suffix && (suffix == "" || (suffix[0] == '.' && suffix != "."))
  }

  /**
    `PurePath.with_suffix(suffix)`; Python raises ValueError for an invalid
    suffix and for an empty name.
   */
  function WithSuffix(p: Path, suffix: string): (r: Option<Path>)
    ensures r.Some? <==> ValidSuffix(suffix) && Name(p) != ""
    ensures r.Some? ==> Parent(r.value) == Parent(p) && Name(r.value) == Stem(Name(p)) + suffix
  {
    if !ValidSuffix(suffix) || Name(p) == "" then None else Some(Parent(p) + [Stem(Name(p)) + suffix])
  }

  /** Replacing the name of a valid path by a valid component keeps it valid. */
  lemma RenamedValid(p: Path, c: string)
    requires ValidPath(p) && p != [] && ValidComponent(c)
    ensures ValidPath(Parent(p) + [c])
  {
    var q := Parent(p) + [c];
    forall i | 0 <= i < |q| ensures ValidComponent(q[i]) {
      if i < |Parent(p)| {
        assert q[i] == p[i];
      }
    }
  }

  /** `str(path)` for a relative path: components joined with '/', and "." for the empty path. */
  function PathString(p: Path): (r: string)
  {
    if p == [] then "." else JoinWithSlash(p)
  }

  function JoinWithSlash(p: Path): string
    requires p != []
  {
    if |p| == 1 then p[0] else p[0] + "/" + JoinWithSlash(p[1..])
  }

  lemma {:induction false} JoinWithSlashEnds(p: Path)
    requires p != [] && ValidPath(p)
    ensures |JoinWithSlash(p)| > 0
    ensures JoinWithSlash(p)[|JoinWithSlash(p)| - 1] == p[|p| - 1][|p[|p| - 1]| - 1]
    ensures JoinWithSlash(p) != "."  || p == ["."]
  {
    if |p| > 1 {
      JoinWithSlashEnds(p[1..]);
    }
  }

  /** The first component of a joined path is everything before the first '/'. */
  lemma {:induction false} JoinWithSlashHead(p: Path)
    requires p != [] && ValidPath(p)
    ensures |p[0]| <= |JoinWithSlash(p)|
    ensures JoinWithSlash(p)[..|p[0]|] == p[0]
    ensures |p| == 1 <==> |JoinWithSlash(p)| == |p[0]|
    ensures |p| > 1 ==> JoinWithSlash(p)[|p[0]|] == '/' && JoinWithSlash(p)[|p[0]| + 1..] == JoinWithSlash(p[1..])
  {
    if |p| > 1 {
      JoinWithSlashEnds(p[1..]);
    }
  }

  lemma {:induction false} JoinWithSlashInjective(p: Path, q: Path)
    requires p != [] && q != [] && ValidPath(p) && ValidPath(q)
    requires JoinWithSlash(p) == JoinWithSlash(q)
    ensures p == q
    decreases |p|
  {
    JoinWithSlashHead(p);
    JoinWithSlashHead(q);
    if |p| > 1 && |q| > 1 && |p[0]| == |q[0]| {
      JoinWithSlashInjective(p[1..], q[1..]);
      assert p == [p[0]] + p[1..];
      assert q == [q[0]] + q[1..];
    }
  }

  /** `str` is injective on valid paths, so distinct paths give distinct archive names. */
  lemma PathStringInjective(p: Path, q: Path)
    requires ValidPath(p) && ValidPath(q)
    requires PathString(p) == PathString(q)
    ensures p == q
  {
    if p != [] && q != [] {
      JoinWithSlashInjective(p, q);
    } else if p != [] {
      JoinWithSlashEnds(p);
    } else if q != [] {
      JoinWithSlashEnds(q);
    }
  }

  /** A non-empty valid path never prints with a trailing '/'. */
  lemma PathStringNoTrailingSlash(p: Path)
    requires ValidPath(p)
    ensures |PathString(p)| > 0 && PathString(p)[|PathString(p)| - 1] != '/'
  {
    if p != [] {
      JoinWithSlashEnds(p);
    }
  }

  /** The input-root step of `_convert_directory`: a file `root / rel` relative to `root.parent`. */
  lemma RelativeToParent(root: Path, rel: Path)
    ensures RelativeTo(root + rel, Parent(root)) == Some(if root == [] then rel else [Name(root)] + rel)
  {
    if root != [] {
      assert (root + rel)[..|Parent(root)|] == Parent(root);
      assert root + rel == Parent(root) + ([Name(root)] + rel);
    }
  }
}
