/**
 * String primitives of Python that the scraper relies on: `str.isspace`
 * (also the regex class `\s`), `str.strip()`, `str.lower()`, substring
 * containment (`token in col`) and the first run of two or more whitespace
 * characters (the regex `\s{2,}`).
 */
module Text {

  /** Python's `str.isspace` for one character: the characters of general
      category Zs or bidirectional class WS, B or S. The regex class `\s`
      on `str` patterns uses the same table. */
  predicate IsSpace(c: char) {
    || ('\t' <= c <= '\r')
    || ('\U{1C}' <= c <= '\U{1F}')
    || c == ' ' || c == '\U{85}' || c == '\U{A0}' || c == '\U{1680}'
    || ('\U{2000}' <= c <= '\U{200A}')
    || c == '\U{2028}' || c == '\U{2029}' || c == '\U{202F}' || c == '\U{205F}'
    || c == '\U{3000}'
  }

  /** Removes leading whitespace. */
  function TrimStart(s: string): string {
    if |s| > 0 && IsSpace(s[0]) then TrimStart(s[1..]) else s
  }

  /** Removes trailing whitespace. */
  function TrimEnd(s: string): string {
    if |s| > 0 && IsSpace(s[|s| - 1]) then TrimEnd(s[..|s| - 1]) else s
  }

  /** `TrimStart` keeps the longest suffix that does not start with
      whitespace: everything it drops is whitespace. */
  lemma {:induction false} TrimStartSpec(s: string)
    ensures |TrimStart(s)| <= |s| && TrimStart(s) == s[|s| - |TrimStart(s)|..]
    ensures TrimStart(s) == [] || !IsSpace(TrimStart(s)[0])
    ensures forall i :: 0 <= i < |s| - |TrimStart(s)| ==> IsSpace(s[i])
  {
    if |s| > 0 && IsSpace(s[0]) {
      TrimStartSpec(s[1..]);
      forall i | 1 <= i < |s| - |TrimStart(s)|
        ensures IsSpace(s[i])
      {
        assert s[i] == s[1..][i - 1];
      }
    }
  }

  /** `TrimEnd` keeps the longest prefix that does not end with
      whitespace: everything it drops is whitespace. */
  lemma {:induction false} TrimEndSpec(s: string)
    ensures |TrimEnd(s)| <= |s| && TrimEnd(s) == s[..|TrimEnd(s)|]
    ensures TrimEnd(s) == [] || !IsSpace(TrimEnd(s)[|TrimEnd(s)| - 1])
    ensures forall i :: |TrimEnd(s)| <= i < |s| ==> IsSpace(s[i])
  {
    if |s| > 0 && IsSpace(s[|s| - 1]) {
      TrimEndSpec(s[..|s| - 1]);
      forall i | |TrimEnd(s)| <= i < |s| - 1
        ensures IsSpace(s[i])
      {
        assert s[i] == s[..|s| - 1][i];
      }
    }
  }

  /** Python's `str.strip()` with no argument: no longer than its input,
      and neither starting nor ending with whitespace. */
  function Strip(s: string): (r: string)
    ensures |r| <= |s|
    ensures r == [] || (!IsSpace(r[0]) && !IsSpace(r[|r| - 1]))
  {
    TrimStartSpec(s);
    TrimEndSpec(TrimStart(s));
    var t := TrimStart(s);
    assert TrimEnd(t) != [] ==> TrimEnd(t)[0] == t[0];
    TrimEnd(t)
  }

  /** A prefix `r` of a suffix `t = s[lo..]` is the segment of `s` at `lo`;
      whatever follows `r` in `t` follows it in `s`, and `r` starts where
      `t` does. */
  lemma SegmentOfSuffix(s: string, lo: nat, t: string, r: string)
    requires lo <= |s| && t == s[lo..]
    requires |r| <= |t| && r == t[..|r|]
    requires t == [] || !IsSpace(t[0])
    requires forall i :: |r| <= i < |t| ==> IsSpace(t[i])
    ensures lo + |r| <= |s| && r == s[lo..lo + |r|]
    ensures r == [] || !IsSpace(r[0])
    ensures forall i :: lo + |r| <= i < |s| ==> IsSpace(s[i])
  {
    assert r != [] ==> r[0] == t[0];
    forall i | lo + |r| <= i < |s|
      ensures IsSpace(s[i])
    {
      assert s[i] == t[i - lo];
    }
  }

  /** What `strip()` leaves is a contiguous piece of its input that neither
      starts nor ends with whitespace, and everything cut off is whitespace. */
  lemma StripSegment(s: string) returns (lo: nat)
    ensures lo + |Strip(s)| <= |s| && Strip(s) == s[lo..lo + |Strip(s)|]
    ensures Strip(s) == [] || (!IsSpace(Strip(s)[0]) && !IsSpace(Strip(s)[|Strip(s)| - 1]))
    ensures forall i :: 0 <= i < lo ==> IsSpace(s[i])
    ensures forall i :: lo + |Strip(s)| <= i < |s| ==> IsSpace(s[i])
  {
    var t := TrimStart(s);
    TrimStartSpec(s);
    TrimEndSpec(t);
    lo := |s| - |t|;
    SegmentOfSuffix(s, lo, t, TrimEnd(t));
  }

  /** Stripping twice is stripping once. */
  lemma StripIdempotent(s: string)
    ensures Strip(Strip(s)) == Strip(s)
  {
    var lo := StripSegment(s);
    var r := Strip(s);
    if r != [] {
      assert TrimStart(r) == r;
      assert TrimEnd(r) == r;
    }
  }

  /** Samples of the whitespace table: tab, newline, space, no-break space
      and the ideographic space are whitespace; a letter, the zero-width
      space and the byte-order mark are not. */
  lemma WhitespaceTable()
    ensures IsSpace('\t') && IsSpace('\n') && IsSpace(' ') && IsSpace('\U{A0}') && IsSpace('\U{3000}')
    ensures !IsSpace('a') && !IsSpace('\U{200B}') && !IsSpace('\U{FEFF}')
  {
  }

  /** Python's `str.lower()` on one character, for ASCII and Latin-1
      capitals (U+00C0..U+00DE without the multiplication sign). */
  function LowerChar(c: char): char {
    if 'A' <= c <= 'Z' || ('\U{C0}' <= c <= '\U{DE}' && c != '\U{D7}') then
      (c as int + 32) as char
    else
      c
  }

  /** Python's `str.lower()`, character by character: as long as its input
      and free of ASCII capitals. */
  function Lower(s: string): (r: string)
    ensures |r| == |s|
    ensures forall i :: 0 <= i < |r| ==> !('A' <= r[i] <= 'Z')
  {
    seq(|s|, i requires 0 <= i < |s| => LowerChar(s[i]))
  }

  /** `t` occurs in `s` starting at index `i`. */
  predicate OccursAt(t: string, s: string, i: nat) {
    i + |t| <= |s| && s[i..i + |t|] == t
  }

  /** Python's `t in s` for two strings: case-sensitive substring containment. */
  predicate IsSubstring(t: string, s: string) {
    exists i: nat | i <= |s| :: OccursAt(t, s, i)
  }

  /** Whitespace at `i` and at `i + 1`: a match of `\s{2,}` starts at `i`. */
  predicate GapAt(s: string, i: nat) {
    i + 1 < |s| && IsSpace(s[i]) && IsSpace(s[i + 1])
  }

  /** The start of the leftmost run of two or more whitespace characters at
      or after `from`; `|s|` when there is none. */
  function FirstGapFrom(s: string, from: nat): (g: nat)
    requires from <= |s|
    ensures from <= g <= |s|
    ensures g < |s| ==> GapAt(s, g)
    ensures forall j: nat :: from <= j < g ==> !GapAt(s, j)
    decreases |s| - from
  {
    if from + 1 >= |s| then |s|
    else if IsSpace(s[from]) && IsSpace(s[from + 1]) then from
    else FirstGapFrom(s, from + 1)
  }

  /** The start of the leftmost run of two or more whitespace characters,
      which is where `re.split(r"\s{2,}", s, 1)` cuts; `|s|` when there is
      no such run. */
  function FirstGap(s: string): (g: nat)
    ensures g <= |s|
    ensures g < |s| ==> GapAt(s, g)
    ensures forall j: nat :: j < g ==> !GapAt(s, j)
  {
    FirstGapFrom(s, 0)
  }

  /** No run of two or more whitespace characters anywhere in `s`. */
  predicate HasNoGap(s: string) {
    forall j: nat | j < |s| :: !GapAt(s, j)
  }

  lemma {:induction false} NoGapIffFirstGapAtEnd(s: string)
    ensures HasNoGap(s) <==> FirstGap(s) == |s|
  {
    if FirstGap(s) == |s| {
    }
  }

  /** Stripping a string without a gap leaves no gap. */
  lemma StripNoGap(s: string)
    requires HasNoGap(s)
    ensures HasNoGap(Strip(s))
  {
    var lo := StripSegment(s);
    NoGapSegment(s, lo, lo + |Strip(s)|);
  }

  /** A contiguous piece of a string without a gap has no gap. */
  lemma {:induction false} NoGapSegment(s: string, lo: nat, hi: nat)
    requires lo <= hi <= |s|
    requires HasNoGap(s)
    ensures HasNoGap(s[lo..hi])
  {
    forall j: nat | j < hi - lo ensures !GapAt(s[lo..hi], j) {
      if GapAt(s[lo..hi], j) {
        assert GapAt(s, lo + j);
      }
    }
  }
}
