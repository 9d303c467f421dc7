/**
  Character-level string operations used by `_convert_file`: Python's
  whitespace test, `str.strip()` and `str.replace(old, "")`.
 */
module Text {

  /**
    Whitespace as Python's `str.isspace` and the regex class `\s` agree on it
    within ASCII: space, tab, line feed, vertical tab, form feed, carriage
    return and the four separators 0x1C-0x1F.
   */
  predicate IsSpace(c: char) {
    c == ' ' || c == '\t' || c == '\n' || c == '\r' || c == '\U{000B}' || c == '\U{000C}'
    || c == '\U{001C}' || c == '\U{001D}' || c == '\U{001E}' || c == '\U{001F}'
  }

  /** Every character of `s[lo..hi]` is whitespace. */
  predicate SpaceBetween(s: string, lo: int, hi: int)
    requires 0 <= lo <= hi <= |s|
  {
    forall i :: lo <= i < hi ==> IsSpace(s[i])
  }

  predicate AllSpace(s: string) {
    SpaceBetween(s, 0, |s|)
  }

  /** Drops the longest whitespace prefix. */
  function TrimStart(s: string): (r: string)
    ensures |r| <= |s| && r == s[|s| - |r|..]
    ensures SpaceBetween(s, 0, |s| - |r|)
    ensures r == [] || !IsSpace(r[0])
  {
    if s != [] && IsSpace(s[0]) then TrimStart(s[1..]) else s
  }

  /** Drops the longest whitespace suffix. */
  function TrimEnd(s: string): (r: string)
    ensures |r| <= |s| && r == s[..|r|]
    ensures SpaceBetween(s, |r|, |s|)
    ensures r == [] || !IsSpace(r[|r| - 1])
  {
    if s != [] && IsSpace(s[|s| - 1]) then TrimEnd(s[..|s| - 1]) else s
  }

  /** `str.strip()`: what is left neither starts nor ends with whitespace. */
  function Trim(s: string): (r: string)
    ensures |r| <= |s|
    ensures r == [] || (!IsSpace(r[0]) && !IsSpace(r[|r| - 1]))
  {
    var t := TrimStart(s);
    var r := TrimEnd(t);
    assert r == [] || r[0] == t[0];
    r
  }

  /** The offset in `s` at which `Trim(s)` starts. */
  function TrimOffset(s: string): nat
  {
    |s| - |TrimStart(s)|
  }

  lemma PrefixOfSuffix(s: string, a: nat, t: string, r: string)
    requires a <= |s| && t == s[a..] && |r| <= |t| && r == t[..|r|]
    ensures r == s[a..a + |r|]
  {
    forall k | 0 <= k < |r| ensures r[k] == s[a + k] {
      assert r[k] == t[k];
    }
  }

  /** `Trim(s)` is a slice of `s`, and everything cut off on either side is whitespace. */
  lemma TrimIsSlice(s: string)
    ensures TrimOffset(s) + |Trim(s)| <= |s|
    ensures Trim(s) == s[TrimOffset(s)..TrimOffset(s) + |Trim(s)|]
    ensures SpaceBetween(s, 0, TrimOffset(s)) && SpaceBetween(s, TrimOffset(s) + |Trim(s)|, |s|)
  {
    var t := TrimStart(s);
    var a := |s| - |t|;
    var r := TrimEnd(t);
    PrefixOfSuffix(s, a, t, r);
    assert Trim(s) == r;
    assert TrimOffset(s) == a;
    forall i | a + |r| <= i < |s| ensures IsSpace(s[i]) {
      assert s[i] == t[i - a];
    }
  }

  /** A string without leading or trailing whitespace is left unchanged. */
  lemma TrimUnchanged(s: string)
    requires s == [] || (!IsSpace(s[0]) && !IsSpace(s[|s| - 1]))
    ensures Trim(s) == s
  {
  }

  lemma TrimIdempotent(s: string)
    ensures Trim(Trim(s)) == Trim(s)
  {
    TrimUnchanged(Trim(s));
  }

  /** A fragment made only of whitespace becomes an empty command. */
  lemma {:induction false} TrimAllSpace(s: string)
    requires AllSpace(s)
    ensures Trim(s) == ""
  {
    if s != [] {
      assert AllSpace(s[1..]) by {
        forall i | 0 <= i < |s[1..]| ensures IsSpace(s[1..][i]) {
          assert s[1..][i] == s[i + 1];
        }
      }
      TrimAllSpace(s[1..]);
      assert TrimStart(s) == TrimStart(s[1..]);
    }
  }

  /** `pat` occurs in `s` at index `i`. */
  predicate OccursAt(s: string, pat: string, i: nat) {
    i + |pat| <= |s| && s[i..i + |pat|] == pat
  }

  predicate Contains(s: string, pat: string) {
    exists i: nat | i <= |s| :: OccursAt(s, pat, i)
  }

  /**
    `s.replace(pat, "")`: scans left to right and removes every occurrence that
    does not overlap an occurrence already removed.
   */
  function RemoveAll(s: string, pat: string): (r: string)
    requires pat != []
    ensures |r| <= |s|
    decreases |s|
  {
    if |s| < |pat| then s
    else if s[..|pat|] == pat then RemoveAll(s[|pat|..], pat)
    else [s[0]] + RemoveAll(s[1..], pat)
  }

  /** Text without an occurrence of the pattern is returned unchanged. */
  lemma {:induction false} RemoveAllAbsent(s: string, pat: string)
    requires pat != [] && !Contains(s, pat)
    ensures RemoveAll(s, pat) == s
    decreases |s|
  {
    if |s| >= |pat| {
      assert !OccursAt(s, pat, 0);
      assert s[..|pat|] != pat;
      assert !Contains(s[1..], pat) by {
        forall i: nat | OccursAt(s[1..], pat, i) ensures false {
          assert s[1..][i..i + |pat|] == s[i + 1..i + 1 + |pat|];
          assert OccursAt(s, pat, i + 1);
        }
      }
      RemoveAllAbsent(s[1..], pat);
    }
  }

  /**
    Leftmost-first removal: when the first occurrence of `pat` in `s` starts at
    `|a|`, the result keeps `a`, drops that occurrence and continues after it.
   */
  lemma {:induction false} RemoveAllFirst(a: string, pat: string, b: string)
    requires pat != []
    requires forall i: nat :: i < |a| ==> !OccursAt(a + pat + b, pat, i)
    ensures RemoveAll(a + pat + b, pat) == a + RemoveAll(b, pat)
    decreases |a|
  {
    var s := a + pat + b;
    if a == [] {
      assert s == pat + b;
      assert s[..|pat|] == pat;
      assert s[|pat|..] == b;
    } else {
      var a' := a[1..];
      var s' := a' + pat + b;
      assert !OccursAt(s, pat, 0);
      assert s[1..] == s';
      forall i: nat | i < |a'| ensures !OccursAt(s', pat, i) {
        assert !OccursAt(s, pat, i + 1);
        assert s[i + 1..i + 1 + |pat|] == s'[i..i + |pat|];
      }
      RemoveAllFirst(a', pat, b);
      assert RemoveAll(s, pat) == [s[0]] + RemoveAll(s', pat);
      assert a == [a[0]] + a';
    }
  }

  /** When the pattern occurs in the text, removing every occurrence shortens the text by at least the pattern's length. */
  lemma {:induction false} RemoveAllShrinks(s: string, pat: string, i: nat)
    requires pat != [] && OccursAt(s, pat, i)
    ensures |RemoveAll(s, pat)| <= |s| - |pat|
    decreases |s|
  {
    if s[..|pat|] != pat {
      assert i > 0;
      assert s[1..][i - 1..i - 1 + |pat|] == s[i..i + |pat|];
      RemoveAllShrinks(s[1..], pat, i - 1);
    }
  }

  const MagicMarker: string := "# MAGIC "
  const HeaderMarker: string := "# Databricks notebook source"

  /** The two `str.replace` calls of `_convert_file`, applied in the source's order. */
  function StripMarkers(text: string): (r: string)
  {
    RemoveAll(RemoveAll(text, MagicMarker), HeaderMarker)
  }

  lemma StripMarkersBounds(text: string)
    ensures |StripMarkers(text)| <= |text|
    ensures !Contains(text, MagicMarker) && !Contains(text, HeaderMarker) ==> StripMarkers(text) == text
  {
    if !Contains(text, MagicMarker) && !Contains(text, HeaderMarker) {
      RemoveAllAbsent(text, MagicMarker);
      RemoveAllAbsent(text, HeaderMarker);
    }
  }

  /** A notebook that starts with the header line loses exactly the header text. */
  lemma StripHeaderLine(rest: string)
    requires !Contains(HeaderMarker + rest, MagicMarker) && !Contains(rest, HeaderMarker)
    ensures StripMarkers(HeaderMarker + rest) == rest
  {
    RemoveAllAbsent(HeaderMarker + rest, MagicMarker);
    RemoveAllFirst([], HeaderMarker, rest);
    assert [] + HeaderMarker + rest == HeaderMarker + rest;
    RemoveAllAbsent(rest, HeaderMarker);
  }
}
