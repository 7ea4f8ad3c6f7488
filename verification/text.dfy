/** Character classes and string helpers with the semantics of the Python
    built-ins and `re` constructs the job-description pipeline relies on:
    `str.isspace`, `str.strip`, `str.splitlines`, `str.split`, ASCII
    `lower`/`upper`/`title`, the regex word boundary `\b` and a leftmost
    search, which is what `re.search` reports. */
module Text {

  datatype Option<T> = None | Some(value: T)

  function Min(a: int, b: int): int { if a <= b then a else b }

  // ---------------------------------------------------------------------
  // Character classes
  // ---------------------------------------------------------------------

  predicate IsUpper(c: char) { 'A' <= c <= 'Z' }
  predicate IsLowerLetter(c: char) { 'a' <= c <= 'z' }
  predicate IsAsciiLetter(c: char) { IsUpper(c) || IsLowerLetter(c) }
  predicate IsDigit(c: char) { '0' <= c <= '9' }

  /** The regex word character `\w`, restricted to ASCII. */
  predicate IsWordChar(c: char) { IsAsciiLetter(c) || IsDigit(c) || c == '_' }

  /** Python's `str.isspace` (which is also what `\s` matches in a str pattern). */
  predicate IsSpace(c: char)
  {
    ('\U{9}' <= c <= '\U{D}') || ('\U{1C}' <= c <= '\U{20}') || c == '\U{85}' || c == '\U{A0}'
    || c == '\U{1680}' || ('\U{2000}' <= c <= '\U{200A}') || c == '\U{2028}' || c == '\U{2029}'
    || c == '\U{202F}' || c == '\U{205F}' || c == '\U{3000}'
  }

  /** The line boundaries recognised by Python's `str.splitlines`. */
  predicate IsLineBreak(c: char)
  {
    c == '\n' || c == '\r' || c == '\U{B}' || c == '\U{C}' || c == '\U{1C}' || c == '\U{1D}'
    || c == '\U{1E}' || c == '\U{85}' || c == '\U{2028}' || c == '\U{2029}'
  }

  // ---------------------------------------------------------------------
  // ASCII case mapping
  // ---------------------------------------------------------------------

  function LowerChar(c: char): (r: char)
    ensures !IsUpper(r)
    ensures IsUpper(c) ==> IsLowerLetter(r)
    ensures !IsUpper(c) ==> r == c
  {
    if IsUpper(c) then (c as int + 32) as char else c
  }

  function UpperChar(c: char): (r: char)
    ensures !IsLowerLetter(r) && LowerChar(r) == LowerChar(c)
    ensures !IsLowerLetter(c) ==> r == c
  {
    if IsLowerLetter(c) then (c as int - 32) as char else c
  }

  /** A character that lower-cases to a letter is a letter, hence not whitespace. */
  lemma LowersToLetter(c: char)
    requires IsLowerLetter(LowerChar(c))
    ensures IsAsciiLetter(c) && !IsSpace(c)
  {
  }

  predicate NoUpper(s: string) { forall k :: 0 <= k < |s| ==> !IsUpper(s[k]) }

  /** `str.lower()` on ASCII. */
  function Lower(s: string): (r: string)
    ensures |r| == |s| && NoUpper(r)
    ensures forall k :: 0 <= k < |s| ==> r[k] == LowerChar(s[k])
  {
    seq(|s|, k requires 0 <= k < |s| => LowerChar(s[k]))
  }

  lemma NoUpperConcat(a: string, b: string)
    requires NoUpper(a) && NoUpper(b)
    ensures NoUpper(a + b)
  {
    forall k | 0 <= k < |a + b| ensures !IsUpper((a + b)[k]) {
      if k < |a| { assert (a + b)[k] == a[k]; } else { assert (a + b)[k] == b[k - |a|]; }
    }
  }

  lemma LowerOfLowered(s: string)
    requires NoUpper(s)
    ensures Lower(s) == s
  {
  }

  /** `str.title()` on ASCII: a letter is upper-cased when the character before
      it is not a letter, and lower-cased otherwise. */
  function Title(s: string): (r: string)
    ensures |r| == |s| && forall k :: 0 <= k < |s| ==> LowerChar(r[k]) == LowerChar(s[k])
    ensures forall k :: 0 <= k < |s| && !IsAsciiLetter(s[k]) ==> r[k] == s[k]
    ensures forall k :: 0 <= k < |s| && IsAsciiLetter(s[k]) ==>
      (IsUpper(r[k]) <==> k == 0 || !IsAsciiLetter(s[k - 1]))
  {
    var r := seq(|s|, k requires 0 <= k < |s| => TitleCharAt(s, k));
    assert forall k :: 0 <= k < |s| ==> r[k] == TitleCharAt(s, k);
    r
  }

  function TitleCharAt(s: string, k: nat): (c: char)
    requires k < |s|
    ensures LowerChar(c) == LowerChar(s[k])
    ensures !IsAsciiLetter(s[k]) ==> c == s[k]
    ensures IsAsciiLetter(s[k]) ==> (IsUpper(c) <==> k == 0 || !IsAsciiLetter(s[k - 1]))
  {
    if k == 0 || !IsAsciiLetter(s[k - 1]) then UpperChar(s[k]) else LowerChar(s[k])
  }

  /** ASCII case-insensitive match of the literal `p` at position `i` of `s`. */
  predicate MatchesAt(s: string, i: nat, p: string)
  {
    i + |p| <= |s| && forall k :: 0 <= k < |p| ==> LowerChar(s[i + k]) == LowerChar(p[k])
  }

  /** `re.search(p, s, re.I)` for a literal `p` without special characters. */
  predicate ContainsCI(s: string, p: string)
  {
    exists i :: 0 <= i <= |s| && MatchesAt(s, i, p)
  }

  // ---------------------------------------------------------------------
  // Word boundary
  // ---------------------------------------------------------------------

  /** `\b` holds at position `i` exactly when one neighbour is a word character
      and the other is not (a missing neighbour counts as a non-word character). */
  predicate Boundary(s: string, i: int)
  {
    0 <= i <= |s| && ((i > 0 && IsWordChar(s[i - 1])) != (i < |s| && IsWordChar(s[i])))
  }

  // ---------------------------------------------------------------------
  // Whitespace: strip, skip, split
  // ---------------------------------------------------------------------

  predicate AllSpace(s: string) { forall k :: 0 <= k < |s| ==> IsSpace(s[k]) }

  /** A stripped string has no whitespace at either end. */
  predicate IsStripped(s: string)
  {
    s == [] || (!IsSpace(s[0]) && !IsSpace(s[|s| - 1]))
  }

  /** The first index at or after `i` that does not hold whitespace (or `|s|`). */
  function SkipSpaces(s: string, i: nat): (j: nat)
    requires i <= |s|
    ensures i <= j <= |s| && (j < |s| ==> !IsSpace(s[j]))
    ensures forall k :: i <= k < j ==> IsSpace(s[k])
    decreases |s| - i
  {
    if i < |s| && IsSpace(s[i]) then SkipSpaces(s, i + 1) else i
  }

  /** One past the last non-whitespace index in [lo, j), or `lo`. */
  function TrimEndFrom(s: string, lo: nat, j: nat): (e: nat)
    requires lo <= j <= |s|
    ensures lo <= e <= j && (e > lo ==> !IsSpace(s[e - 1]))
    ensures forall k :: e <= k < j ==> IsSpace(s[k])
    decreases j
  {
    if j > lo && IsSpace(s[j - 1]) then TrimEndFrom(s, lo, j - 1) else j
  }

  /** Python's `str.strip()`: drop the whitespace at both ends. */
  function Strip(s: string): (r: string)
    ensures IsStripped(r) && |r| <= |s|
    ensures r == [] <==> AllSpace(s)
  {
    var i := SkipSpaces(s, 0);
    var e := TrimEndFrom(s, i, |s|);
    assert e == i ==> forall k :: 0 <= k < |s| ==> IsSpace(s[k]);
    s[i..e]
  }

  /** `strip` removes whitespace from the ends and nothing else: the result is a
      slice of the input with only whitespace before and after it. */
  lemma StripIsSlice(s: string)
    ensures exists i, e :: 0 <= i <= e <= |s| && Strip(s) == s[i..e] && AllSpace(s[..i]) && AllSpace(s[e..])
  {
    var i := SkipSpaces(s, 0);
    var e := TrimEndFrom(s, i, |s|);
    assert AllSpace(s[..i]) && AllSpace(s[e..]);
  }

  /** A string that starts with a non-space strips to a prefix of itself, and
      only whitespace follows that prefix. */
  lemma StripKeepsFront(s: string)
    requires s == [] || !IsSpace(s[0])
    ensures Strip(s) <= s
    ensures forall k :: |Strip(s)| <= k < |s| ==> IsSpace(s[k])
  {
    var e := TrimEndFrom(s, 0, |s|);
    assert SkipSpaces(s, 0) == 0;
    assert Strip(s) == s[..e];
  }

  /** Stripping a string that is already stripped changes nothing. */
  lemma StripStripped(s: string)
    requires IsStripped(s)
    ensures Strip(s) == s
  {
  }

  /** The number of words `len(s.split())`: maximal runs of non-whitespace. */
  function WordCount(s: string): nat
    decreases |s|
  {
    if |s| == 0 then 0
    else
      WordCount(s[..|s| - 1])
      + (if !IsSpace(s[|s| - 1]) && (|s| == 1 || IsSpace(s[|s| - 2])) then 1 else 0)
  }

  // ---------------------------------------------------------------------
  // Lines
  // ---------------------------------------------------------------------

  /** The first line boundary at or after `i`, or `|s|`. */
  function LineBreakFrom(s: string, i: nat): (k: nat)
    requires i <= |s|
    ensures i <= k <= |s| && (k < |s| ==> IsLineBreak(s[k]))
    ensures forall m :: i <= m < k ==> !IsLineBreak(s[m])
    decreases |s| - i
  {
    if i == |s| || IsLineBreak(s[i]) then i else LineBreakFrom(s, i + 1)
  }

  /** Python's `str.splitlines()`: "\r\n" is one boundary, a final boundary
      does not start an extra empty line, and "" has no lines. */
  function SplitLines(s: string): (lines: seq<string>)
    ensures forall k :: 0 <= k < |lines| ==> forall m :: 0 <= m < |lines[k]| ==> !IsLineBreak(lines[k][m])
    ensures s == [] <==> lines == []
    decreases |s|
  {
    if s == [] then []
    else
      var (k, next) := FirstBreak(s);
      if k == |s| then [s] else [s[..k]] + SplitLines(s[next..])
  }

  /** A separator `splitlines` removes: `\r\n`, or one line-boundary character. */
  predicate IsLineSep(sep: string)
  {
    sep == "\r\n" || (|sep| == 1 && IsLineBreak(sep[0]))
  }

  /** The lines, each followed by its separator, put back together. */
  function Join(lines: seq<string>, seps: seq<string>): string
    requires |seps| == |lines|
    decreases |lines|
  {
    if lines == [] then [] else lines[0] + seps[0] + Join(lines[1..], seps[1..])
  }

  /** Where the line that starts at 0 ends, and where the next one starts. */
  function FirstBreak(s: string): (r: (nat, nat))
    requires s != []
    ensures r.0 <= r.1 <= |s| && forall m :: 0 <= m < r.0 ==> !IsLineBreak(s[m])
    ensures r.0 == |s| ==> r.1 == |s|
    ensures r.0 < |s| ==> r.0 < r.1
    ensures r.0 < |s| ==> IsLineSep(s[r.0..r.1])
    ensures r.0 < |s| && s[r.0..r.1] == "\r" ==> r.1 == |s| || s[r.1] != '\n'
  {
    var k := LineBreakFrom(s, 0);
    if k == |s| then (k, k)
    else if s[k] == '\r' && k + 1 < |s| && s[k + 1] == '\n' then
      assert s[k..k + 2] == "\r\n";
      (k, k + 2)
    else
      assert s[k..k + 1] == [s[k]];
      (k, k + 1)
  }

  lemma JoinCons(line: string, sep: string, lines: seq<string>, seps: seq<string>)
    requires |seps| == |lines|
    ensures Join([line] + lines, [sep] + seps) == line + sep + Join(lines, seps)
  {
    assert ([line] + lines)[1..] == lines && ([sep] + seps)[1..] == seps;
  }

  lemma RejoinStep(s: string, k: nat, next: nat, lines: seq<string>, seps: seq<string>)
    requires k <= next <= |s| && |seps| == |lines| && Join(lines, seps) == s[next..]
    ensures Join([s[..k]] + lines, [s[k..next]] + seps) == s
  {
    JoinCons(s[..k], s[k..next], lines, seps);
    assert s == s[..k] + s[k..next] + s[next..];
  }

  /** The separator that follows each line of `SplitLines(s)`: a line separator,
      except after a last line that the text does not end with a boundary after. */
  function LineSeps(s: string): (seps: seq<string>)
    decreases |s|
  {
    if s == [] then []
    else
      var (k, next) := FirstBreak(s);
      if k == |s| then [[]] else [s[k..next]] + LineSeps(s[next..])
  }

  /** `SplitLines` and `LineSeps` take the same steps. */
  lemma {:induction false} SplitLinesStep(s: string)
    requires s != []
    ensures var (k, next) := FirstBreak(s);
      if k == |s| then SplitLines(s) == [s] && LineSeps(s) == [[]]
      else SplitLines(s) == [s[..k]] + SplitLines(s[next..]) && LineSeps(s) == [s[k..next]] + LineSeps(s[next..])
  {
  }

  /** One separator per line. */
  lemma {:induction false} LineSepsLength(s: string)
    ensures |LineSeps(s)| == |SplitLines(s)|
    decreases |s|
  {
    if s != [] {
      SplitLinesStep(s);
      var (k, next) := FirstBreak(s);
      if k < |s| {
        LineSepsLength(s[next..]);
      }
    }
  }

  /** Each separator is a line separator, except possibly an empty one after
      the last line. */
  lemma {:induction false} LineSepsShape(s: string)
    ensures |LineSeps(s)| == |SplitLines(s)|
    ensures forall k :: 0 <= k < |LineSeps(s)| ==> IsLineSep(LineSeps(s)[k]) || (k == |LineSeps(s)| - 1 && LineSeps(s)[k] == [])
    decreases |s|
  {
    if s != [] {
      SplitLinesStep(s);
      var (k, next) := FirstBreak(s);
      if k < |s| {
        LineSepsShape(s[next..]);
        var seps := LineSeps(s);
        assert forall m :: 0 < m < |seps| ==> seps[m] == LineSeps(s[next..])[m - 1];
      }
    }
  }

  /** The lines and their separators give back the text. */
  lemma {:induction false} SplitLinesRejoin(s: string)
    ensures |LineSeps(s)| == |SplitLines(s)|
    ensures Join(SplitLines(s), LineSeps(s)) == s
    decreases |s|
  {
    LineSepsLength(s);
    if s != [] {
      SplitLinesStep(s);
      var (k, next) := FirstBreak(s);
      if k < |s| {
        var rest := s[next..];
        SplitLinesRejoin(rest);
        RejoinStep(s, k, next, SplitLines(rest), LineSeps(rest));
      }
    }
  }

  lemma FirstSepNotLf(t: string)
    requires t != [] && t[0] != '\n'
    ensures SplitLines(t)[0] != [] || LineSeps(t)[0] != "\n"
  {
    SplitLinesStep(t);
  }

  /** A `\r` separator is never followed by `\n`, since that pair is one
      separator: no empty line is invented between them. */
  lemma {:induction false} SplitLinesCrLf(s: string)
    ensures |LineSeps(s)| == |SplitLines(s)|
    ensures forall k :: 0 <= k < |LineSeps(s)| - 1 && LineSeps(s)[k] == "\r" ==>
      SplitLines(s)[k + 1] != [] || LineSeps(s)[k + 1] != "\n"
    decreases |s|
  {
    LineSepsLength(s);
    if s != [] {
      SplitLinesStep(s);
      var (k, next) := FirstBreak(s);
      if k < |s| {
        var rest := s[next..];
        SplitLinesCrLf(rest);
        var lines := SplitLines(s);
        var seps := LineSeps(s);
        assert forall m :: 0 < m < |seps| ==> seps[m] == LineSeps(rest)[m - 1] && lines[m] == SplitLines(rest)[m - 1];
        if seps[0] == "\r" && rest != [] {
          FirstSepNotLf(rest);
        }
      }
    }
  }

  /** `[l.strip() for l in lines]` */
  function StripEach(lines: seq<string>): (r: seq<string>)
    ensures |r| == |lines| && forall k :: 0 <= k < |r| ==> r[k] == Strip(lines[k])
  {
    seq(|lines|, k requires 0 <= k < |lines| => Strip(lines[k]))
  }

  // ---------------------------------------------------------------------
  // Leftmost search
  // ---------------------------------------------------------------------

  /** The least index in [lo, hi) satisfying `f`: the position a leftmost
      regex search reports, or the first rule of a priority list that fires. */
  function FindFirst(lo: nat, hi: nat, f: nat -> bool): (r: Option<nat>)
    ensures r.Some? ==> lo <= r.value < hi && f(r.value)
    ensures r.Some? ==> forall j :: lo <= j < r.value ==> !f(j)
    ensures r.None? ==> forall j :: lo <= j < hi ==> !f(j)
    decreases hi - lo
  {
    if lo >= hi then None
    else if f(lo) then Some(lo)
    else FindFirst(lo + 1, hi, f)
  }

  // ---------------------------------------------------------------------
  // Slicing
  // ---------------------------------------------------------------------

  /** Python's `s[:n]`, where a negative `n` drops `-n` elements from the end. */
  function PyPrefix<T>(s: seq<T>, n: int): (r: seq<T>)
    ensures r <= s
    ensures n >= 0 ==> |r| == Min(n, |s|)
    ensures n < 0 ==> |r| == if |s| + n < 0 then 0 else |s| + n
  {
    if n >= 0 then (if n <= |s| then s[..n] else s)
    else if |s| + n < 0 then []
    else s[..|s| + n]
  }
}
