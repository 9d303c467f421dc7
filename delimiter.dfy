/**
  The cell delimiter of a source notebook, the regular expression
  `[#\/\s]+COMMAND -+`, and Python's `re.split` / `re.findall` with it.
 */
module CommandDelimiter {
  import opened Wrappers
  import opened Text

  /** The character class `[#\/\s]`. */
  predicate InClass(c: char) {
    c == '#' || c == '/' || IsSpace(c)
  }

  const Keyword: string := "COMMAND "

  /**
    `w` belongs to the language of `[#\/\s]+COMMAND -+`, its class run being
    the first `k` characters.
   */
  predicate ShapedAt(w: string, k: nat) {
    && 0 < k && k + 9 <= |w|
    && (forall j :: 0 <= j < k ==> InClass(w[j]))
    && w[k..k + 8] == Keyword
    && (forall j :: k + 8 <= j < |w| ==> w[j] == '-')
  }

  ghost predicate IsDelimiter(w: string) {
    exists k: nat :: ShapedAt(w, k)
  }

  /** No slice of `f` is a delimiter. */
  ghost predicate DelimiterFree(f: string) {
    forall a, b :: 0 <= a <= b <= |f| ==> !IsDelimiter(f[a..b])
  }

  /** Length of the longest run of class characters starting at `i` (the greedy `[...]+`). */
  function ClassRun(s: string, i: nat): (k: nat)
    requires i <= |s|
    ensures i + k <= |s|
    decreases |s| - i
  {
    if i < |s| && InClass(s[i]) then 1 + ClassRun(s, i + 1) else 0
  }

  lemma {:induction false} ClassRunMaximal(s: string, i: nat)
    requires i <= |s|
    ensures forall j :: i <= j < i + ClassRun(s, i) ==> InClass(s[j])
    ensures i + ClassRun(s, i) == |s| || !InClass(s[i + ClassRun(s, i)])
    decreases |s| - i
  {
    if i < |s| && InClass(s[i]) {
      ClassRunMaximal(s, i + 1);
    }
  }

  /** Length of the longest run of '-' starting at `i` (the greedy `-+`). */
  function DashRun(s: string, i: nat): (k: nat)
    requires i <= |s|
    ensures i + k <= |s|
    decreases |s| - i
  {
    if i < |s| && s[i] == '-' then 1 + DashRun(s, i + 1) else 0
  }

  lemma {:induction false} DashRunMaximal(s: string, i: nat)
    requires i <= |s|
    ensures forall j :: i <= j < i + DashRun(s, i) ==> s[j] == '-'
    ensures i + DashRun(s, i) == |s| || s[i + DashRun(s, i)] != '-'
    decreases |s| - i
  {
    if i < |s| && s[i] == '-' {
      DashRunMaximal(s, i + 1);
    }
  }

  /**
    Length of the match the regex engine finds when it starts at `i`, or 0 when
    no match starts there. Backtracking into the class run cannot help, because
    the character after a shorter run is a class character and not 'C'.
   */
  function MatchLength(s: string, i: nat): (m: nat)
    requires i <= |s|
    ensures i + m <= |s|
    ensures m == 0 || m >= 10
  {
    var k := ClassRun(s, i);
    if 0 < k && i + k + 9 <= |s| && s[i + k..i + k + 8] == Keyword && s[i + k + 8] == '-'
    then k + 8 + DashRun(s, i + k + 8)
    else 0
  }

  lemma SliceOfSlice(s: string, lo: nat, hi: nat, a: nat, b: nat)
    requires lo <= hi <= |s| && a <= b <= hi - lo
    ensures s[lo..hi][a..b] == s[lo + a..lo + b]
  {
    forall j | 0 <= j < b - a ensures s[lo..hi][a..b][j] == s[lo + a..lo + b][j] {
      assert s[lo..hi][a..b][j] == s[lo + a + j];
    }
  }

  lemma MatchSound(s: string, i: nat)
    requires i <= |s| && MatchLength(s, i) > 0
    ensures IsDelimiter(s[i..i + MatchLength(s, i)])
  {
    var k := ClassRun(s, i);
    ClassRunMaximal(s, i);
    DashRunMaximal(s, i + k + 8);
    var w := s[i..i + MatchLength(s, i)];
    SliceOfSlice(s, i, i + MatchLength(s, i), k, k + 8);
    assert ShapedAt(w, k);
  }

  /** The match found at `i` is the longest delimiter starting at `i` (greediness). */
  lemma MatchComplete(s: string, i: nat, n: nat)
    requires i + n <= |s| && IsDelimiter(s[i..i + n])
    ensures 0 < n <= MatchLength(s, i)
  {
    var w := s[i..i + n];
    var k: nat :| ShapedAt(w, k);
    var run := ClassRun(s, i);
    ClassRunMaximal(s, i);
    assert s[i + k] == w[k] == 'C';
    assert forall j :: 0 <= j < k ==> s[i + j] == w[j];
    assert run == k;
    SliceOfSlice(s, i, i + n, k, k + 8);
    assert s[i + k + 8] == w[k + 8];
    DashRunMaximal(s, i + k + 8);
    assert forall j :: k + 8 <= j < n ==> s[i + j] == w[j];
  }

  /** `re.search` from `from`: the leftmost position at which a match starts. */
  function NextMatch(s: string, from: nat): (r: Option<nat>)
    requires from <= |s|
    ensures r.Some? ==> from <= r.value < |s| && MatchLength(s, r.value) > 0
    decreases |s| - from
  {
    if MatchLength(s, from) > 0 then Some(from)
    else if from == |s| then None
    else NextMatch(s, from + 1)
  }

  /** No match starts between `from` and the position `NextMatch` reports. */
  lemma {:induction false} NextMatchLeftmost(s: string, from: nat)
    requires from <= |s|
    ensures forall j :: from <= j <= |s| && (NextMatch(s, from).None? || j < NextMatch(s, from).value)
              ==> MatchLength(s, j) == 0
    decreases |s| - from
  {
    if MatchLength(s, from) == 0 && from < |s| {
      NextMatchLeftmost(s, from + 1);
    }
  }

  /** The fragments `re.split` returns for `s[from..]`. */
  function FragmentsFrom(s: string, from: nat): seq<string>
    requires from <= |s|
    decreases |s| - from
  {
    match NextMatch(s, from)
    case None => [s[from..]]
    case Some(i) => [s[from..i]] + FragmentsFrom(s, i + MatchLength(s, i))
  }

  /** The matched delimiter texts, as `re.findall` returns them for `s[from..]`. */
  function DelimitersFrom(s: string, from: nat): seq<string>
    requires from <= |s|
    decreases |s| - from
  {
    match NextMatch(s, from)
    case None => []
    case Some(i) => [s[i..i + MatchLength(s, i)]] + DelimitersFrom(s, i + MatchLength(s, i))
  }

  /** `re.split(r"[#\/\s]+COMMAND -+", s)`. */
  function Split(s: string): seq<string> {
    FragmentsFrom(s, 0)
  }

  /** `re.findall(r"[#\/\s]+COMMAND -+", s)`. */
  function FindAll(s: string): seq<string> {
    DelimitersFrom(s, 0)
  }

  /** Puts the delimiters back between the fragments. */
  function Interleave(fragments: seq<string>, delimiters: seq<string>): string
    requires |fragments| == |delimiters| + 1
  {
    if delimiters == [] then fragments[0]
    else fragments[0] + delimiters[0] + Interleave(fragments[1..], delimiters[1..])
  }

  /** One step of `re.split` and `re.findall`: the text before the next match, the match, and the rest. */
  lemma FromStep(s: string, from: nat)
    requires from <= |s|
    ensures NextMatch(s, from).None? ==> FragmentsFrom(s, from) == [s[from..]] && DelimitersFrom(s, from) == []
    ensures NextMatch(s, from).Some? ==>
      var i := NextMatch(s, from).value;
      var e := i + MatchLength(s, i);
      && from <= i < e <= |s|
      && FragmentsFrom(s, from) == [s[from..i]] + FragmentsFrom(s, e)
      && DelimitersFrom(s, from) == [s[i..e]] + DelimitersFrom(s, e)
  {
  }

  lemma {:induction false} CountFrom(s: string, from: nat)
    requires from <= |s|
    ensures |FragmentsFrom(s, from)| == |DelimitersFrom(s, from)| + 1
    decreases |s| - from
  {
    FromStep(s, from);
    var r := NextMatch(s, from);
    if r.Some? {
      var e := r.value + MatchLength(s, r.value);
      CountFrom(s, e);
    }
  }

  /** One fragment more than there are delimiter matches. */
  lemma SplitCount(s: string)
    ensures |Split(s)| == |FindAll(s)| + 1
  {
    CountFrom(s, 0);
  }

  lemma InterleaveCons(f: string, d: string, fs: seq<string>, ds: seq<string>)
    requires |fs| == |ds| + 1
    ensures Interleave([f] + fs, [d] + ds) == f + d + Interleave(fs, ds)
  {
    assert ([f] + fs)[1..] == fs && ([d] + ds)[1..] == ds;
  }

  lemma SliceThree(s: string, a: nat, b: nat, c: nat)
    requires a <= b <= c <= |s|
    ensures s[a..] == s[a..b] + s[b..c] + s[c..]
  {
  }

  lemma {:induction false} ReconstructFrom(s: string, from: nat)
    requires from <= |s|
    ensures |FragmentsFrom(s, from)| == |DelimitersFrom(s, from)| + 1
    ensures Interleave(FragmentsFrom(s, from), DelimitersFrom(s, from)) == s[from..]
    decreases |s| - from
  {
    CountFrom(s, from);
    FromStep(s, from);
    var r := NextMatch(s, from);
    if r.Some? {
      var i := r.value;
      var e := i + MatchLength(s, i);
      ReconstructFrom(s, e);
      InterleaveCons(s[from..i], s[i..e], FragmentsFrom(s, e), DelimitersFrom(s, e));
      SliceThree(s, from, i, e);
    }
  }

  /** Joining the fragments with the matched delimiters gives back the text. */
  lemma SplitReconstructs(s: string)
    ensures |Split(s)| == |FindAll(s)| + 1
    ensures Interleave(Split(s), FindAll(s)) == s
  {
    ReconstructFrom(s, 0);
  }

  lemma AllDelimitersCons(x: string, rest: seq<string>)
    requires IsDelimiter(x)
    requires forall d :: d in rest ==> IsDelimiter(d)
    ensures forall d :: d in [x] + rest ==> IsDelimiter(d)
  {
  }

  lemma {:induction false} DelimitersFromMatch(s: string, from: nat)
    requires from <= |s|
    ensures forall d :: d in DelimitersFrom(s, from) ==> IsDelimiter(d)
    decreases |s| - from
  {
    FromStep(s, from);
    var r := NextMatch(s, from);
    if r.Some? {
      var i := r.value;
      var e := i + MatchLength(s, i);
      MatchSound(s, i);
      DelimitersFromMatch(s, e);
      AllDelimitersCons(s[i..e], DelimitersFrom(s, e));
    }
  }

  /** Every matched delimiter text is a word of the regular language. */
  lemma FindAllMatch(s: string)
    ensures forall d :: d in FindAll(s) ==> IsDelimiter(d)
  {
    DelimitersFromMatch(s, 0);
  }

  /** A slice in which no match starts contains no delimiter. */
  lemma SliceFree(s: string, lo: nat, hi: nat)
    requires lo <= hi <= |s|
    requires forall j :: lo <= j < hi ==> MatchLength(s, j) == 0
    ensures DelimiterFree(s[lo..hi])
  {
    var f := s[lo..hi];
    forall a, b | 0 <= a <= b <= |f| && IsDelimiter(f[a..b]) ensures false {
      SliceOfSlice(s, lo, hi, a, b);
      MatchComplete(s, lo + a, b - a);
    }
  }

  lemma {:induction false} FragmentsFromFree(s: string, from: nat)
    requires from <= |s|
    ensures forall f :: f in FragmentsFrom(s, from) ==> DelimiterFree(f)
    decreases |s| - from
  {
    NextMatchLeftmost(s, from);
    FromStep(s, from);
    var r := NextMatch(s, from);
    if r.Some? {
      var i := r.value;
      var e := i + MatchLength(s, i);
      SliceFree(s, from, i);
      FragmentsFromFree(s, e);
    } else {
      SliceFree(s, from, |s|);
      assert s[from..] == s[from..|s|];
    }
  }

  /** No fragment contains a delimiter. */
  lemma SplitFragmentsFree(s: string)
    ensures forall f :: f in Split(s) ==> DelimiterFree(f)
  {
    FragmentsFromFree(s, 0);
  }

  lemma {:induction false} NoMatchFrom(s: string, from: nat)
    requires from <= |s|
    requires forall j :: from <= j <= |s| ==> MatchLength(s, j) == 0
    ensures NextMatch(s, from) == None
    decreases |s| - from
  {
    if from < |s| {
      NoMatchFrom(s, from + 1);
    }
  }

  /** Text in which "COMMAND -" never occurs is a single fragment. */
  lemma SplitWithoutKeyword(s: string)
    requires !Contains(s, "COMMAND -")
    ensures Split(s) == [s] && FindAll(s) == []
  {
    forall j | 0 <= j <= |s| ensures MatchLength(s, j) == 0 {
      assert !OccursAt(s, "COMMAND -", j + ClassRun(s, j));
    }
    NoMatchFrom(s, 0);
  }
}
