/** Section extraction of the job-description parser: `_extract_bullets`
    (header search, bullet-block search, per-line marker filter) and
    `_normalize_lines` (skill normalization and sentence case per item). */
module JdSections {
  import opened Text
  import opened JdFields
  import opened Normalizer

  // ---------------------------------------------------------------------
  // Section headers, searched case-insensitively and without boundaries
  // ---------------------------------------------------------------------

  /** `(requirements|must[-\s]*have|qualifications|required)` */
  const MustHaveHeaders: seq<Pieces> := [["requirements"], ["must", "have"], ["qualifications"], ["required"]]

  /** `(nice[-\s]*to[-\s]*have|preferred|bonus|good to have)` */
  const NiceToHaveHeaders: seq<Pieces> := [["nice", "to", "have"], ["preferred"], ["bonus"], ["good to have"]]

  /** `(responsibilities|what you'll do|what you will do|duties|role and responsibilities)` */
  const ResponsibilityHeaders: seq<Pieces> :=
    [["responsibilities"], ["what you'll do"], ["what you will do"], ["duties"], ["role and responsibilities"]]

  /** Some alternative of the header pattern matches at `i`. */
  predicate HeaderAt(s: string, headers: seq<Pieces>, i: nat)
  {
    i <= |s| && exists a :: a in headers && PiecesEnd(s, i, a).Some?
  }

  /** `re.search(header_regex, text, re.I).start()`, if there is a match. */
  function HeaderStart(s: string, headers: seq<Pieces>): (r: Option<nat>)
    ensures r.Some? ==> r.value <= |s| && HeaderAt(s, headers, r.value)
    ensures r.Some? ==> forall j :: 0 <= j < r.value ==> !HeaderAt(s, headers, j)
    ensures r.None? ==> forall j :: 0 <= j <= |s| ==> !HeaderAt(s, headers, j)
  {
    var f := (i: nat) => HeaderAt(s, headers, i);
    assert forall i: nat :: f(i) == HeaderAt(s, headers, i);
    FindFirst(0, |s| + 1, f)
  }

  // ---------------------------------------------------------------------
  // The bullet block: (?s)(?:\r?\n|\r)\s*([\-*•].+?)(?:\n\s*\n|$)
  // ---------------------------------------------------------------------

  /** The class `[\-*•]`. */
  predicate IsMarker(c: char) { c == '-' || c == '*' || c == '\U{2022}' }

  /** The block can start at the line break at `a`. Whichever of `\r\n`, `\n`
      or `\r` is taken, the greedy `\s*` ends at the same place, since a marker
      is not whitespace; `.+?` then needs at least one more character. */
  predicate BlockStartsAt(s: string, a: nat)
  {
    a < |s| && (s[a] == '\n' || s[a] == '\r')
    && SkipSpaces(s, a + 1) + 1 < |s| && IsMarker(s[SkipSpaces(s, a + 1)])
  }

  /** `(?:\n\s*\n|$)` matches at `c`: a blank line (a newline, then whitespace
      holding another newline), the end, or a final newline. */
  predicate TerminatorAt(s: string, c: nat)
  {
    c <= |s|
    && (c == |s| || (c + 1 == |s| && s[c] == '\n')
        || (s[c] == '\n' && exists d :: c + 1 <= d < SkipSpaces(s, c + 1) && s[d] == '\n'))
  }

  /** Where the lazy `.+?` stops: the first terminator at or after `c`. */
  function BlockEnd(s: string, c: nat): (e: nat)
    requires c <= |s|
    ensures c <= e <= |s| && TerminatorAt(s, e)
    ensures forall k :: c <= k < e ==> !TerminatorAt(s, k)
    decreases |s| - c
  {
    if TerminatorAt(s, c) then c else BlockEnd(s, c + 1)
  }

  /** The capture of a match whose line break is at `a`: from the marker to
      the first terminator after it. */
  function BlockFrom(s: string, a: nat): (r: string)
    requires BlockStartsAt(s, a)
    ensures |r| >= 2 && IsMarker(r[0])
  {
    var b := SkipSpaces(s, a + 1);
    s[b..BlockEnd(s, b + 2)]
  }

  /** The captured bullet block of the leftmost match in `s`, if any. */
  function Block(s: string): (r: Option<string>)
    ensures r.None? <==> forall a :: 0 <= a < |s| ==> !BlockStartsAt(s, a)
    ensures r.Some? ==> exists a :: (0 <= a < |s| && BlockStartsAt(s, a)
      && (forall j :: 0 <= j < a ==> !BlockStartsAt(s, j)) && r.value == BlockFrom(s, a))
  {
    var f := (a: nat) => BlockStartsAt(s, a);
    assert forall a: nat :: f(a) == BlockStartsAt(s, a);
    match FindFirst(0, |s|, f)
    case Some(a) => Some(BlockFrom(s, a))
    case None => None
  }

  // ---------------------------------------------------------------------
  // The per-line filter: re.match(r"^\s*[\-*•]\s+", line)
  // ---------------------------------------------------------------------

  /** A marker after optional whitespace, then at least one whitespace character. */
  predicate IsBulletLine(line: string)
  {
    SkipSpaces(line, 0) + 1 < |line| && IsMarker(line[SkipSpaces(line, 0)]) && IsSpace(line[SkipSpaces(line, 0) + 1])
  }

  /** `re.sub(r"^\s*[\-*•]\s+", "", line).strip()` on a bullet line: the
      greedy `\s+` takes the whole whitespace run after the marker. */
  function Cleaned(line: string): (r: string)
    requires IsBulletLine(line)
    ensures IsStripped(r) && |r| + 2 <= |line|
  {
    Strip(line[SkipSpaces(line, SkipSpaces(line, 0) + 1)..])
  }

  /** A line yields an item when it is a bullet line with text after the marker. */
  predicate Keeps(line: string) { IsBulletLine(line) && Cleaned(line) != [] }

  /** The item a line yields: its cleaned text, once the dash is stripped. */
  function ItemOf(line: string, dash: char): string
  {
    if Keeps(line) then CleanLine(Cleaned(line), dash) else []
  }

  /** The items the loop appends for `lines`, in order. */
  function Items(lines: seq<string>, dash: char): (r: seq<string>)
    ensures |r| <= |lines|
    ensures forall k :: 0 <= k < |r| ==> IsStripped(r[k])
  {
    var f := (line: string) => ItemOf(line, dash);
    SelectAtPositions(lines, Keeps, f);
    Select(lines, Keeps, f)
  }

  /** `_extract_bullets` */
  function Bullets(text: string, headers: seq<Pieces>, dash: char): (r: seq<string>)
    ensures HeaderStart(text, headers).None? ==> r == []
    ensures HeaderStart(text, headers).Some? && Block(text[HeaderStart(text, headers).value..]).None? ==> r == []
    ensures HeaderStart(text, headers).Some? && Block(text[HeaderStart(text, headers).value..]).Some? ==>
      var lines := StripEach(SplitLines(Block(text[HeaderStart(text, headers).value..]).value));
      |r| == |SourceIndices(lines)|
      && forall k :: 0 <= k < |r| ==> r[k] == ItemOf(lines[SourceIndices(lines)[k]], dash)
    ensures forall k :: 0 <= k < |r| ==> IsStripped(r[k])
  {
    match HeaderStart(text, headers)
    case None => []
    case Some(start) =>
      match Block(text[start..])
      case None => []
      case Some(block) =>
        var lines := StripEach(SplitLines(block));
        ItemsFromBulletLines(lines, dash);
        Items(lines, dash)
  }

  /** `_extract_bullets`: the two searches, then the filtering loop. */
  method ExtractBullets(text: string, headers: seq<Pieces>, dash: char) returns (out: seq<string>)
    ensures out == Bullets(text, headers, dash)
  {
    var start := HeaderStart(text, headers);
    if start.None? {
      return [];
    }
    var block := Block(text[start.value..]);
    if block.None? {
      return [];
    }
    out := KeepBulletLines(StripEach(SplitLines(block.value)), dash);
  }

  /** The loop of `_extract_bullets` over the stripped lines of the block. */
  method KeepBulletLines(lines: seq<string>, dash: char) returns (out: seq<string>)
    ensures out == Items(lines, dash)
  {
    out := [];
    for i := 0 to |lines|
      invariant out == Items(lines[..i], dash)
    {
      var line := lines[i];
      assert lines[..i + 1][..i] == lines[..i] && lines[..i + 1][i] == line;
      assert Items(lines[..i + 1], dash)
        == Items(lines[..i], dash) + (if Keeps(line) then [ItemOf(line, dash)] else []) by {
        assert Select(lines[..i + 1], Keeps, (l: string) => ItemOf(l, dash))
          == Select(lines[..i], Keeps, (l: string) => ItemOf(l, dash)) + (if Keeps(line) then [ItemOf(line, dash)] else []);
      }
      if IsBulletLine(line) {
        var cleaned := Cleaned(line);
        if cleaned != [] {
          out := out + [CleanLine(cleaned, dash)];
        }
      }
    }
    assert lines[..|lines|] == lines;
  }

  // ---------------------------------------------------------------------
  // Where the items come from
  // ---------------------------------------------------------------------

  /** The images under `f` of the elements of `xs` that satisfy `p`, in order. */
  function Select<T, U>(xs: seq<T>, p: T -> bool, f: T -> U): (r: seq<U>)
    ensures |r| <= |xs|
    decreases |xs|
  {
    if xs == [] then []
    else
      var n := |xs| - 1;
      Select(xs[..n], p, f) + (if p(xs[n]) then [f(xs[n])] else [])
  }

  /** The positions of the elements of `xs` that satisfy `p`, in increasing order. */
  function Positions<T>(xs: seq<T>, p: T -> bool): (idx: seq<nat>)
    ensures forall k :: 0 <= k < |idx| ==> idx[k] < |xs| && p(xs[idx[k]])
    ensures forall a, b :: 0 <= a < b < |idx| ==> idx[a] < idx[b]
    decreases |xs|
  {
    if xs == [] then []
    else
      var n := |xs| - 1;
      var init := Positions(xs[..n], p);
      assert forall j :: 0 <= j < n ==> xs[..n][j] == xs[j];
      init + (if p(xs[n]) then [n] else [])
  }

  /** No element satisfying `p` is missed. */
  lemma {:induction false} PositionsCover<T>(xs: seq<T>, p: T -> bool)
    ensures forall j :: 0 <= j < |xs| && p(xs[j]) ==> j in Positions(xs, p)
    decreases |xs|
  {
    if xs != [] {
      var n := |xs| - 1;
      PositionsCover(xs[..n], p);
      assert forall j :: 0 <= j < n ==> xs[..n][j] == xs[j];
    }
  }

  /** The indices of the lines that yield items. */
  function SourceIndices(lines: seq<string>): (idx: seq<nat>)
    ensures forall k :: 0 <= k < |idx| ==> idx[k] < |lines| && Keeps(lines[idx[k]])
    ensures forall a, b :: 0 <= a < b < |idx| ==> idx[a] < idx[b]
    ensures forall j :: 0 <= j < |lines| && Keeps(lines[j]) ==> j in idx
  {
    PositionsCover(lines, Keeps);
    Positions(lines, Keeps)
  }

  /** The `k`-th selected image is the image of the `k`-th element satisfying `p`. */
  lemma {:induction false} SelectAtPositions<T, U>(xs: seq<T>, p: T -> bool, f: T -> U)
    ensures |Select(xs, p, f)| == |Positions(xs, p)|
    ensures forall k :: 0 <= k < |Positions(xs, p)| ==> Select(xs, p, f)[k] == f(xs[Positions(xs, p)[k]])
    decreases |xs|
  {
    if xs != [] {
      var n := |xs| - 1;
      SelectAtPositions(xs[..n], p, f);
      var idx := Positions(xs[..n], p);
      var sel := Select(xs[..n], p, f);
      assert Select(xs, p, f) == sel + (if p(xs[n]) then [f(xs[n])] else []);
      assert Positions(xs, p) == idx + (if p(xs[n]) then [n] else []);
      forall k | 0 <= k < |idx| ensures Select(xs, p, f)[k] == f(xs[Positions(xs, p)[k]]) {
        assert xs[idx[k]] == xs[..n][idx[k]];
      }
    }
  }

  /** Every item is, in order, the cleaned text of a line that starts with a
      marker followed by whitespace, and every such line with text yields one. */
  lemma ItemsFromBulletLines(lines: seq<string>, dash: char)
    ensures |Items(lines, dash)| == |SourceIndices(lines)|
    ensures forall k :: 0 <= k < |SourceIndices(lines)| ==>
      Items(lines, dash)[k] == ItemOf(lines[SourceIndices(lines)[k]], dash)
  {
    SelectAtPositions(lines, Keeps, (line: string) => ItemOf(line, dash));
  }

  // ---------------------------------------------------------------------
  // _normalize_lines
  // ---------------------------------------------------------------------

  /** One line normalized against the skills map, then sentence-cased. */
  function NormalizedLine(line: string, skills: SkillsMap): string
  {
    SentenceCase(Normalize(line, skills).text)
  }

  /** Each line normalized against the skills map, then sentence-cased. */
  function NormalizedLines(lines: seq<string>, skills: SkillsMap): (r: seq<string>)
    ensures |r| == |lines|
    ensures forall k :: 0 <= k < |r| ==> IsStripped(r[k])
    ensures forall k, m :: 0 <= k < |r| && 1 <= m < |r[k]| ==> !IsUpper(r[k][m])
  {
    var r := seq(|lines|, k requires 0 <= k < |lines| => NormalizedLine(lines[k], skills));
    forall k, m | 0 <= k < |r| && 1 <= m < |r[k]| ensures !IsUpper(r[k][m]) {
      var t := Normalize(lines[k], skills).text;
      StripNoUpper(t);
    }
    r
  }

  /** Stripping keeps a string free of upper-case letters. */
  lemma StripNoUpper(t: string)
    requires NoUpper(t)
    ensures NoUpper(Strip(t))
  {
    var i := SkipSpaces(t, 0);
    var e := TrimEndFrom(t, i, |t|);
    assert Strip(t) == t[i..e];
    forall k | 0 <= k < |Strip(t)| ensures !IsUpper(Strip(t)[k]) {
      assert Strip(t)[k] == t[i + k];
    }
  }

  /** `_normalize_lines`: the loop that appends one normalized line per input line. */
  method NormalizeLines(lines: seq<string>, skills: SkillsMap) returns (out: seq<string>)
    ensures out == NormalizedLines(lines, skills)
  {
    out := [];
    for i := 0 to |lines|
      invariant |out| == i
      invariant forall k :: 0 <= k < i ==> out[k] == NormalizedLine(lines[k], skills)
    {
      var line := NormalizeLine(lines[i], skills);
      out := out + [line];
    }
  }

  /** The body of that loop for one line. */
  method NormalizeLine(line: string, skills: SkillsMap) returns (r: string)
    ensures r == NormalizedLine(line, skills)
  {
    var normalized, _ := NormalizeText(line, skills);
    r := SentenceCase(normalized);
  }
}
