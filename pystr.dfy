/**
 * The Python string built-ins the appointment store relies on, on strings of
 * Unicode characters: `str.isspace`, `str.strip`, `str.split()` without a
 * separator, the first piece of `str.split(sep)`, the `in` operator on strings
 * and `str.lower` (restricted to ASCII letters).
 */
module PyStr {

  /** The characters for which `c.isspace()` holds. */
  const Whitespace: set<char> :=
    {' ', '\t', '\n', '\U{b}', '\U{c}', '\r', '\U{1c}', '\U{1d}', '\U{1e}', '\U{1f}', '\U{85}', '\U{a0}',
     '\U{1680}', '\U{2000}', '\U{2001}', '\U{2002}', '\U{2003}', '\U{2004}', '\U{2005}', '\U{2006}',
     '\U{2007}', '\U{2008}', '\U{2009}', '\U{200a}', '\U{2028}', '\U{2029}', '\U{202f}', '\U{205f}',
     '\U{3000}'}

  /** `c.isspace()`: the characters `split()` and `strip()` treat as whitespace. */
  predicate IsSpace(c: char)
  {
    c in Whitespace
  }

  predicate AllSpace(s: string)
  {
    forall i :: 0 <= i < |s| ==> IsSpace(s[i])
  }

  predicate NoSpace(s: string)
  {
    forall i :: 0 <= i < |s| ==> !IsSpace(s[i])
  }

  /** The number of whitespace characters that start `s`. */
  function LeadingSpace(s: string): (n: nat)
    ensures n <= |s| && forall i :: 0 <= i < n ==> IsSpace(s[i])
    ensures n < |s| ==> !IsSpace(s[n])
  {
    if s == [] || !IsSpace(s[0]) then 0 else 1 + LeadingSpace(s[1..])
  }

  /** The number of whitespace characters that end `s`. */
  function TrailingSpace(s: string): (n: nat)
    ensures n <= |s| && forall i :: |s| - n <= i < |s| ==> IsSpace(s[i])
    ensures n < |s| ==> !IsSpace(s[|s| - n - 1])
  {
    if s == [] || !IsSpace(s[|s| - 1]) then 0 else 1 + TrailingSpace(s[..|s| - 1])
  }

  /** `s.strip()`: whitespace removed at both ends. */
  function Strip(s: string): (r: string)
    ensures r == [] <==> AllSpace(s)
    ensures r != [] ==> !IsSpace(r[0]) && !IsSpace(r[|r| - 1])
  {
    var rest := s[LeadingSpace(s)..];
    rest[..|rest| - TrailingSpace(rest)]
  }

  /** `s.strip()` is the slice `s[a..a + |s.strip()|]` with only whitespace around it. */
  lemma StripSlice(s: string) returns (a: nat)
    ensures a + |Strip(s)| <= |s| && Strip(s) == s[a..a + |Strip(s)|]
    ensures AllSpace(s[..a]) && AllSpace(s[a + |Strip(s)|..])
  {
    a := LeadingSpace(s);
    var rest := s[a..];
    var t := Strip(s);
    assert t == s[a..a + |t|];
    assert forall i :: a + |t| <= i < |s| ==> s[i] == rest[i - a];
  }

  /** Length of the run of non-whitespace characters that ends `s`. */
  function TrailingTokenLength(s: string): (n: nat)
    ensures n <= |s| && forall i :: |s| - n <= i < |s| ==> !IsSpace(s[i])
    ensures n < |s| ==> IsSpace(s[|s| - n - 1])
  {
    if s == [] || IsSpace(s[|s| - 1]) then 0 else 1 + TrailingTokenLength(s[..|s| - 1])
  }

  /**
   * `s.split()`: the maximal runs of non-whitespace characters, in order;
   * whitespace at either end yields no empty words. Built from the end of the
   * string, so that the last word is the run that ends it once trailing
   * whitespace is set aside.
   */
  function Split(s: string): (words: seq<string>)
    ensures words == [] <==> AllSpace(s)
    decreases |s|
  {
    if s == [] then []
    else if IsSpace(s[|s| - 1]) then
      assert s == s[..|s| - 1] + [s[|s| - 1]];
      Split(s[..|s| - 1])
    else
      var n := TrailingTokenLength(s);
      Split(s[..|s| - n]) + [s[|s| - n..]]
  }

  /** Every word `split()` yields is non-empty and free of whitespace. */
  lemma {:induction false} SplitYieldsWords(s: string)
    ensures forall k :: 0 <= k < |Split(s)| ==> Split(s)[k] != [] && NoSpace(Split(s)[k])
    decreases |s|
  {
    if s == [] {
    } else if IsSpace(s[|s| - 1]) {
      SplitYieldsWords(s[..|s| - 1]);
    } else {
      SplitYieldsWords(s[..|s| - TrailingTokenLength(s)]);
    }
  }

  /** The last word `split()` yields on a string that ends in a word is the run that ends it. */
  lemma SplitEndsWithWord(s: string)
    requires s != [] && !IsSpace(s[|s| - 1])
    ensures Split(s) != [] && Split(s)[|Split(s)| - 1] == s[|s| - TrailingTokenLength(s)..|s|]
  {
    assert s[|s| - TrailingTokenLength(s)..] == s[|s| - TrailingTokenLength(s)..|s|];
  }

  /** `s.split(sep)[0]`: the text before the first `sep`, or all of `s`. */
  function BeforeFirst(s: string, sep: char): (r: string)
    ensures r <= s && sep !in r
    ensures |r| < |s| ==> s[|r|] == sep
  {
    if s == [] || s[0] == sep then [] else [s[0]] + BeforeFirst(s[1..], sep)
  }

  /** `needle` occurs in `hay` starting at position `i`. */
  predicate OccursAt(hay: string, needle: string, i: int)
  {
    0 <= i <= |hay| - |needle| && hay[i..i + |needle|] == needle
  }

  /** `needle in hay`: some position of `hay` starts a copy of `needle`. */
  function Contains(hay: string, needle: string): (r: bool)
    ensures r <==> exists i :: OccursAt(hay, needle, i)
    decreases |hay|
  {
    if needle <= hay then
      assert OccursAt(hay, needle, 0);
      true
    else if hay == [] then false
    else
      var r := Contains(hay[1..], needle);
      OccursShift(hay, needle);
      r
  }

  /** Past the first position, the occurrences in `hay` are those in `hay[1..]`, shifted by one. */
  lemma OccursShift(hay: string, needle: string)
    requires hay != [] && !(needle <= hay)
    ensures (exists i :: OccursAt(hay, needle, i)) <==> exists i :: OccursAt(hay[1..], needle, i)
  {
    forall i | OccursAt(hay, needle, i)
      ensures OccursAt(hay[1..], needle, i - 1)
    {
      assert hay[1..][i - 1..i - 1 + |needle|] == hay[i..i + |needle|];
    }
    forall i | OccursAt(hay[1..], needle, i)
      ensures OccursAt(hay, needle, i + 1)
    {
      assert hay[1..][i..i + |needle|] == hay[i + 1..i + 1 + |needle|];
    }
  }

  /** `c.lower()` for ASCII letters; every other character is kept. */
  function LowerChar(c: char): (r: char)
    ensures 'A' <= c <= 'Z' ==> r as int == c as int + 32
    ensures !('A' <= c <= 'Z') ==> r == c
    ensures IsSpace(r) == IsSpace(c) && !('A' <= r <= 'Z')
  {
    if 'A' <= c <= 'Z' then (c as int + 32) as char else c
  }

  /** `s.lower()`, character by character. */
  function Lower(s: string): (r: string)
    ensures |r| == |s|
  {
    if s == [] then [] else [LowerChar(s[0])] + Lower(s[1..])
  }

  /** `s.lower()` lower-cases each character on its own. */
  lemma {:induction false} LowerEach(s: string)
    ensures forall i :: 0 <= i < |s| ==> Lower(s)[i] == LowerChar(s[i])
  {
    if s != [] {
      LowerEach(s[1..]);
    }
  }
}
