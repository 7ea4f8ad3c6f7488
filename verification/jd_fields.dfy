/** The single-field heuristics of the job-description parser: `_clean_line`,
    `_sentence_case`, `_extract_title`, `_extract_company`, `_extract_location`
    and `_guess_seniority`. Each regular expression is modelled as a scanner
    over character positions; the comment above each scanner says how the
    regex's greedy parts settle. */
module JdFields {
  import opened Text

  /** `jd_parser.py` strips a trailing en dash, the inline copy in `1.py` an em dash. */
  const EnDash: char := '\U{2013}'
  const EmDash: char := '\U{2014}'

  // ---------------------------------------------------------------------
  // _clean_line and _sentence_case
  // ---------------------------------------------------------------------

  /** The class `[;,:.\-<dash>]`. */
  predicate IsTrailingPunct(c: char, dash: char)
  {
    c == ';' || c == ',' || c == ':' || c == '.' || c == '-' || c == dash
  }

  /** Every character of `t` is trailing punctuation. */
  predicate AllPunct(t: string, dash: char)
  {
    forall k :: 0 <= k < |t| ==> IsTrailingPunct(t[k], dash)
  }

  /** `t[p..]` is the maximal run of trailing punctuation at the end of `t`. */
  predicate PunctRunFrom(t: string, p: nat, dash: char)
  {
    p <= |t| && (p == 0 || !IsTrailingPunct(t[p - 1], dash))
    && forall k :: p <= k < |t| ==> IsTrailingPunct(t[k], dash)
  }

  /** `re.sub(r"[;,:.\-<dash>]+$", "", s)` on a string with no trailing newline:
      the maximal run of punctuation at the end goes. */
  function DropTrailingPunct(s: string, dash: char): (r: string)
    ensures r <= s && (r != [] ==> !IsTrailingPunct(r[|r| - 1], dash))
    ensures forall k :: |r| <= k < |s| ==> IsTrailingPunct(s[k], dash)
    decreases |s|
  {
    if |s| > 0 && IsTrailingPunct(s[|s| - 1], dash) then DropTrailingPunct(s[..|s| - 1], dash) else s
  }

  /** `_clean_line`: strip, drop a trailing punctuation run, strip again. The
      result has no surrounding whitespace, it is empty exactly when the stripped
      input is punctuation only, and input that does not end in punctuation is
      only stripped. */
  function CleanLine(s: string, dash: char): (r: string)
    ensures IsStripped(r) && |r| <= |s|
    ensures r == [] <==> AllPunct(Strip(s), dash)
    ensures Strip(s) == [] || !IsTrailingPunct(Strip(s)[|Strip(s)| - 1], dash) ==> r == Strip(s)
    ensures r <= Strip(s)
    ensures forall k :: |r| <= k < |Strip(s)| ==> IsSpace(Strip(s)[k]) || IsTrailingPunct(Strip(s)[k], dash)
    ensures exists p: nat :: PunctRunFrom(Strip(s), p, dash) && r == Strip(Strip(s)[..p])
  {
    var t := Strip(s);
    CleanEmpty(t, dash);
    CleanTail(t, dash);
    CleanDropsRun(t, dash);
    Strip(DropTrailingPunct(t, dash))
  }

  /** On a stripped line, the cleaning yields nothing exactly when the line is
      all punctuation, and changes nothing when the line does not end in it. */
  lemma CleanEmpty(t: string, dash: char)
    requires IsStripped(t)
    ensures var r := Strip(DropTrailingPunct(t, dash));
      (r == [] <==> AllPunct(t, dash))
      && (t == [] || !IsTrailingPunct(t[|t| - 1], dash) ==> r == t)
  {
    var u := DropTrailingPunct(t, dash);
    assert u != [] ==> u[0] == t[0] && !IsSpace(u[0]);
    assert u != [] ==> Strip(u) != [] by {
      if u != [] { assert !AllSpace(u); }
    }
    if t == [] || !IsTrailingPunct(t[|t| - 1], dash) {
      assert u == t;
      StripStripped(t);
    }
  }

  /** The cleaning drops the maximal run of punctuation at the end of a stripped
      line, then strips what is left. */
  lemma CleanDropsRun(t: string, dash: char)
    ensures exists p: nat :: PunctRunFrom(t, p, dash) && Strip(DropTrailingPunct(t, dash)) == Strip(t[..p])
  {
    var u := DropTrailingPunct(t, dash);
    assert u == t[..|u|];
  }

  /** What the cleaning removes from a stripped line is a run of whitespace and
      punctuation at its end. */
  lemma CleanTail(t: string, dash: char)
    requires IsStripped(t)
    ensures var r := Strip(DropTrailingPunct(t, dash));
      r <= t && forall k :: |r| <= k < |t| ==> IsSpace(t[k]) || IsTrailingPunct(t[k], dash)
  {
    var u := DropTrailingPunct(t, dash);
    assert u != [] ==> u[0] == t[0];
    StripKeepsFront(u);
    var r := Strip(u);
    forall k | |r| <= k < |t| ensures IsSpace(t[k]) || IsTrailingPunct(t[k], dash) {
      if k < |u| {
        assert t[k] == u[k];
      }
    }
  }

  /** A trailing full stop goes. */
  lemma CleanLineExamples(dash: char)
    requires dash == EnDash || dash == EmDash
    ensures CleanLine("Engineer.", dash) == "Engineer"
  {
    StripStripped("Engineer.");
    assert DropTrailingPunct("Engineer.", dash) == "Engineer";
    StripStripped("Engineer");
  }

  /** `_sentence_case`: strip, then upper-case the first character only. */
  function SentenceCase(s: string): (r: string)
    ensures |r| == |Strip(s)| && (r == [] <==> AllSpace(s))
    ensures forall k :: 1 <= k < |r| ==> r[k] == Strip(s)[k]
    ensures r != [] ==> !IsLowerLetter(r[0]) && LowerChar(r[0]) == LowerChar(Strip(s)[0])
    ensures IsStripped(r)
  {
    var t := Strip(s);
    if t == [] then t
    else
      assert !IsSpace(UpperChar(t[0])) by {
        if IsLowerLetter(t[0]) { assert IsUpper(UpperChar(t[0])); }
      }
      [UpperChar(t[0])] + t[1..]
  }

  /** Sentence-casing twice is the same as once. */
  lemma SentenceCaseIdempotent(s: string)
    ensures SentenceCase(SentenceCase(s)) == SentenceCase(s)
  {
    var r := SentenceCase(s);
    StripStripped(r);
    if r != [] {
      assert UpperChar(r[0]) == r[0];
      assert r == [r[0]] + r[1..];
    }
  }

  // ---------------------------------------------------------------------
  // Labelled lines: (?im)^\s*<field>\s*[:\-]\s*(.+)$
  // ---------------------------------------------------------------------

  /** `^` in multi-line mode. */
  predicate IsLineStart(s: string, i: nat) { i == 0 || (0 < i <= |s| && s[i - 1] == '\n') }

  /** The first `\n` at or after `i`, or `|s|`: where a greedy `.+` stops. */
  function LineEnd(s: string, i: nat): (e: nat)
    requires i <= |s|
    ensures i <= e <= |s| && (e < |s| ==> s[e] == '\n')
    ensures forall k :: i <= k < e ==> s[k] != '\n'
    decreases |s| - i
  {
    if i == |s| || s[i] == '\n' then i else LineEnd(s, i + 1)
  }

  /** The last index in [lo, e) that is not `\n`. */
  function LastNonNewline(s: string, lo: nat, e: nat): (r: Option<nat>)
    requires lo <= e <= |s|
    ensures r.Some? ==> lo <= r.value < e && s[r.value] != '\n'
    ensures r.Some? ==> forall k :: r.value < k < e ==> s[k] == '\n'
    ensures r.None? ==> forall k :: lo <= k < e ==> s[k] == '\n'
    decreases e
  {
    if e == lo then None
    else if s[e - 1] != '\n' then Some(e - 1)
    else LastNonNewline(s, lo, e - 1)
  }

  /** The capture of `\s*(.+)$` from `p`. The greedy `\s*` takes all the
      whitespace (newlines included); if text follows, `(.+)` takes the rest of
      that line. If only whitespace follows, `\s*` gives back characters until
      `(.+)` can take one that is not a newline; if there is none, no match. */
  function RestOfLine(s: string, p: nat): (r: Option<string>)
    requires p <= |s|
  {
    var q := SkipSpaces(s, p);
    if q < |s| then Some(s[q..LineEnd(s, q)])
    else
      match LastNonNewline(s, p, |s|)
      case Some(k) => Some(s[k..k + 1])
      case None => None
  }

  /** The capture of the labelled-line regex when `^` is taken at `i`. `\s*`
      before the field and before the separator must be maximal: the next
      regex item cannot match whitespace. */
  function LabelAt(s: string, field: string, i: nat): Option<string>
    requires i <= |s|
  {
    var j := SkipSpaces(s, i);
    if MatchesAt(s, j, field) then
      var k := SkipSpaces(s, j + |field|);
      if k < |s| && (s[k] == ':' || s[k] == '-') then RestOfLine(s, k + 1) else None
    else None
  }

  predicate LabelMatchesAt(s: string, field: string, i: nat)
  {
    i <= |s| && IsLineStart(s, i) && LabelAt(s, field, i).Some?
  }

  /** `re.search(r"(?im)^\s*<field>\s*[:\-]\s*(.+)$", s).group(1)`, if any. */
  function LabelValue(s: string, field: string): (r: Option<string>)
    ensures r.Some? <==> exists i :: 0 <= i <= |s| && LabelMatchesAt(s, field, i)
    ensures r.Some? ==> exists i :: (0 <= i <= |s| && LabelMatchesAt(s, field, i) && r == LabelAt(s, field, i)
      && forall j :: 0 <= j < i ==> !LabelMatchesAt(s, field, j))
  {
    var f := (i: nat) => LabelMatchesAt(s, field, i);
    assert forall i: nat :: f(i) == LabelMatchesAt(s, field, i);
    match FindFirst(0, |s| + 1, f)
    case Some(i) => LabelAt(s, field, i)
    case None => None
  }

  // ---------------------------------------------------------------------
  // _extract_title
  // ---------------------------------------------------------------------

  /** `[l.strip() for l in s.splitlines() if l.strip()][0]`, if any. */
  function FirstNonBlankLine(s: string): (r: Option<string>)
    ensures r.Some? ==> r.value != [] && IsStripped(r.value)
    ensures r.None? <==> forall k :: 0 <= k < |SplitLines(s)| ==> Strip(SplitLines(s)[k]) == []
    ensures r.Some? ==> exists k :: (0 <= k < |SplitLines(s)| && r.value == Strip(SplitLines(s)[k])
      && forall j :: 0 <= j < k ==> Strip(SplitLines(s)[j]) == [])
  {
    FirstNonBlank(SplitLines(s))
  }

  /** The first line that is not blank, stripped; none when every line is blank. */
  function FirstNonBlank(lines: seq<string>): (r: Option<string>)
    ensures r.Some? ==> r.value != [] && IsStripped(r.value)
    ensures r.None? <==> forall k :: 0 <= k < |lines| ==> Strip(lines[k]) == []
    ensures r.Some? ==> exists k :: (0 <= k < |lines| && r.value == Strip(lines[k])
      && forall j :: 0 <= j < k ==> Strip(lines[j]) == [])
  {
    var f := (k: nat) => k < |lines| && Strip(lines[k]) != [];
    assert forall k: nat :: f(k) == (k < |lines| && Strip(lines[k]) != []);
    match FindFirst(0, |lines|, f)
    case Some(k) => Some(Strip(lines[k]))
    case None => None
  }

  /** The fallback guard: at most 12 words and none of the phrases of
      `(company|about us|who we are)`, case-insensitively. */
  predicate LooksLikeTitle(line: string)
  {
    WordCount(line) <= 12
    && !ContainsCI(line, "company") && !ContainsCI(line, "about us") && !ContainsCI(line, "who we are")
  }

  /** `_extract_title` */
  function ExtractTitle(text: string, dash: char): (r: string)
    ensures IsStripped(r)
  {
    match LabelValue(text, "title")
    case Some(v) => CleanLine(v, dash)
    case None =>
      match FirstNonBlankLine(text)
      case Some(first) => if LooksLikeTitle(first) then CleanLine(first, dash) else ""
      case None => ""
  }

  /** A `Title:` line takes priority over the first-line fallback. */
  lemma ExtractTitleCases(text: string, dash: char)
    requires exists i :: 0 <= i <= |text| && LabelMatchesAt(text, "title", i)
    ensures ExtractTitle(text, dash) == CleanLine(LabelValue(text, "title").value, dash)
  {
    assert LabelValue(text, "title").Some?;
  }

  /** The first non-blank line is the one at `k` when every line before `k` is blank. */
  lemma FirstNonBlankAt(lines: seq<string>, k: nat)
    requires k < |lines| && Strip(lines[k]) != []
    requires forall j :: 0 <= j < k ==> Strip(lines[j]) == []
    ensures FirstNonBlank(lines) == Some(Strip(lines[k]))
  {
    var first := FirstNonBlank(lines);
    var m :| 0 <= m < |lines| && first.value == Strip(lines[m])
      && forall j :: 0 <= j < m ==> Strip(lines[j]) == [];
    if m < k {
      assert false;
    }
    if k < m {
      assert false;
    }
  }

  /** Without a `Title:` line, the title comes from the first non-blank line `k`:
      that line stripped and cleaned when it has at most 12 words and none of
      the company phrases, and `""` otherwise. */
  lemma ExtractTitleFirstLine(text: string, dash: char, k: nat)
    requires forall i :: 0 <= i <= |text| ==> !LabelMatchesAt(text, "title", i)
    requires k < |SplitLines(text)| && Strip(SplitLines(text)[k]) != []
    requires forall j :: 0 <= j < k ==> Strip(SplitLines(text)[j]) == []
    ensures ExtractTitle(text, dash) ==
      if LooksLikeTitle(Strip(SplitLines(text)[k])) then CleanLine(Strip(SplitLines(text)[k]), dash) else ""
  {
    assert LabelValue(text, "title").None?;
    FirstNonBlankAt(SplitLines(text), k);
  }

  /** Without a `Title:` line and with every line blank, there is no title. */
  lemma ExtractTitleBlank(text: string, dash: char)
    requires forall i :: 0 <= i <= |text| ==> !LabelMatchesAt(text, "title", i)
    requires forall k :: 0 <= k < |SplitLines(text)| ==> Strip(SplitLines(text)[k]) == []
    ensures ExtractTitle(text, dash) == ""
  {
    assert LabelValue(text, "title").None?;
  }

  // ---------------------------------------------------------------------
  // _extract_company: field, else (?im)about\s+([A-Z][A-Za-z0-9&\-\s]{2,40})
  // ---------------------------------------------------------------------

  /** The class `[A-Za-z0-9&\-\s]` (ASCII letters in either case under `re.I`). */
  predicate IsCompanyChar(c: char) { IsAsciiLetter(c) || IsDigit(c) || c == '&' || c == '-' || IsSpace(c) }

  /** The length of the run of company characters from `i`, capped at `cap`. */
  function CompanyRun(s: string, i: nat, cap: nat): (n: nat)
    requires i <= |s|
    ensures n <= cap && i + n <= |s|
    ensures forall k :: i <= k < i + n ==> IsCompanyChar(s[k])
    ensures n < cap ==> i + n == |s| || !IsCompanyChar(s[i + n])
    decreases cap
  {
    if cap == 0 || i == |s| || !IsCompanyChar(s[i]) then 0 else 1 + CompanyRun(s, i + 1, cap - 1)
  }

  /** The capture when the match starts at `i`: `\s+` is maximal (a letter must
      follow it) and `{2,40}` is greedy. */
  function AboutAt(s: string, i: nat): (r: Option<string>)
    requires i <= |s|
    ensures r.Some? ==> 3 <= |r.value| <= 41 && IsAsciiLetter(r.value[0])
  {
    if MatchesAt(s, i, "about") then
      var j := SkipSpaces(s, i + 5);
      if j > i + 5 && j < |s| && IsAsciiLetter(s[j]) then
        var n := CompanyRun(s, j + 1, 40);
        if n >= 2 then Some(s[j..j + 1 + n]) else None
      else None
    else None
  }

  predicate AboutMatchesAt(s: string, i: nat) { i <= |s| && AboutAt(s, i).Some? }

  /** `_extract_company` */
  function ExtractCompany(text: string, dash: char): (r: string)
    ensures IsStripped(r)
  {
    match LabelValue(text, "company")
    case Some(v) => CleanLine(v, dash)
    case None =>
      var f := (i: nat) => AboutMatchesAt(text, i);
      match FindFirst(0, |text| + 1, f)
      case Some(i) => CleanLine(AboutAt(text, i).value, dash)
      case None => ""
  }

  /** A `Company:` line takes priority over the "About <Name>" fallback. */
  lemma ExtractCompanyLabelled(text: string, dash: char)
    requires exists i :: 0 <= i <= |text| && LabelMatchesAt(text, "company", i)
    ensures ExtractCompany(text, dash) == CleanLine(LabelValue(text, "company").value, dash)
  {
    assert LabelValue(text, "company").Some?;
  }

  /** Without a `Company:` line, the company is the cleaned capture of the
      leftmost "About <Name>" match, and empty when there is none. */
  lemma ExtractCompanyFallback(text: string, dash: char)
    requires forall i :: 0 <= i <= |text| ==> !LabelMatchesAt(text, "company", i)
    ensures (forall i :: 0 <= i <= |text| ==> !AboutMatchesAt(text, i)) ==> ExtractCompany(text, dash) == ""
    ensures forall i :: (0 <= i <= |text| && AboutMatchesAt(text, i)
      && (forall j :: 0 <= j < i ==> !AboutMatchesAt(text, j))) ==>
        ExtractCompany(text, dash) == CleanLine(AboutAt(text, i).value, dash)
  {
    var p := (i: nat) => AboutMatchesAt(text, i);
    assert forall i: nat :: p(i) == AboutMatchesAt(text, i);
    var f := FindFirst(0, |text| + 1, p);
    assert LabelValue(text, "company").None?;
    if f.Some? {
      assert ExtractCompany(text, dash) == CleanLine(AboutAt(text, f.value).value, dash);
      forall i | 0 <= i <= |text| && AboutMatchesAt(text, i) && (forall j :: 0 <= j < i ==> !AboutMatchesAt(text, j))
        ensures i == f.value
      {
        if i < f.value {
          assert false;
        }
        if f.value < i {
          assert false;
        }
      }
    } else {
      assert ExtractCompany(text, dash) == "";
    }
  }

  // ---------------------------------------------------------------------
  // _extract_location: field, else (?i)\b(singapore|...|onsite)\b, title-cased
  // ---------------------------------------------------------------------

  const Places: seq<string> := ["singapore", "london", "new york", "sydney", "remote", "hybrid", "onsite"]

  /** The alternative matched at `i`, trying them in order, each between two `\b`. */
  function PlaceAt(s: string, i: nat): (r: Option<string>)
    requires i <= |s|
    ensures r.Some? ==> r.value in Places && MatchesAt(s, i, r.value) && Boundary(s, i) && Boundary(s, i + |r.value|)
    ensures r.None? ==> forall k :: 0 <= k < |Places| ==> !(Boundary(s, i) && MatchesAt(s, i, Places[k]) && Boundary(s, i + |Places[k]|))
  {
    var f := (k: nat) => k < |Places| && Boundary(s, i) && MatchesAt(s, i, Places[k]) && Boundary(s, i + |Places[k]|);
    assert forall k: nat :: f(k) == (k < |Places| && Boundary(s, i) && MatchesAt(s, i, Places[k]) && Boundary(s, i + |Places[k]|));
    match FindFirst(0, |Places|, f)
    case Some(k) => Some(Places[k])
    case None => None
  }

  predicate PlaceMatchesAt(s: string, i: nat) { i <= |s| && PlaceAt(s, i).Some? }

  /** Where `re.search` finds the leftmost place, if anywhere. */
  function PlaceSearch(s: string): (r: Option<nat>)
    ensures r.Some? ==> PlaceMatchesAt(s, r.value)
    ensures r.Some? ==> forall j :: 0 <= j < r.value ==> !PlaceMatchesAt(s, j)
    ensures r.None? ==> forall j :: 0 <= j <= |s| ==> !PlaceMatchesAt(s, j)
  {
    var f := (i: nat) => PlaceMatchesAt(s, i);
    assert forall i: nat :: f(i) == PlaceMatchesAt(s, i);
    FindFirst(0, |s| + 1, f)
  }

  /** `m.group(1).title()` for the place matched at `i`: a non-empty stripped
      string that lower-cases to one of the known places. */
  function TitledPlace(s: string, i: nat): (r: string)
    requires PlaceMatchesAt(s, i)
    ensures r != [] && IsStripped(r) && Lower(r) in Places
  {
    var place := PlaceAt(s, i).value;
    PlaceIsLowerWord(place);
    LowerOfMatch(s, i, place);
    TitleThenLower(s[i..i + |place|]);
    TitleOfPlaceIsStripped(s, i, place);
    Title(s[i..i + |place|])
  }

  /** `_extract_location` */
  function ExtractLocation(text: string, dash: char): (r: string)
    ensures IsStripped(r)
  {
    match LabelValue(text, "location")
    case Some(v) => CleanLine(v, dash)
    case None =>
      match PlaceSearch(text)
      case Some(i) => TitledPlace(text, i)
      case None => ""
  }

  /** A `Location:` line takes priority over the list of known places. */
  lemma ExtractLocationLabelled(text: string, dash: char)
    requires exists i :: 0 <= i <= |text| && LabelMatchesAt(text, "location", i)
    ensures ExtractLocation(text, dash) == CleanLine(LabelValue(text, "location").value, dash)
  {
    assert LabelValue(text, "location").Some?;
  }

  /** Title-casing a case-insensitive occurrence of a place gives a stripped string. */
  lemma TitleOfPlaceIsStripped(s: string, i: nat, place: string)
    requires MatchesAt(s, i, place)
    requires place != [] && IsLowerLetter(place[0]) && IsLowerLetter(place[|place| - 1])
    ensures IsStripped(Title(s[i..i + |place|]))
  {
    var m := s[i..i + |place|];
    var r := Title(m);
    var n := |place| - 1;
    assert LowerChar(m[0]) == LowerChar(place[0]) && LowerChar(m[n]) == LowerChar(place[n]);
    LowersToLetter(r[0]);
    LowersToLetter(r[n]);
  }

  /** Without a `Location:` line, the location is empty exactly when no known
      place occurs as a whole word, and otherwise lower-cases to a known place. */
  lemma ExtractLocationFallback(text: string, dash: char)
    requires forall i :: 0 <= i <= |text| ==> !LabelMatchesAt(text, "location", i)
    ensures ExtractLocation(text, dash) == "" <==> forall i :: 0 <= i <= |text| ==> !PlaceMatchesAt(text, i)
    ensures ExtractLocation(text, dash) != "" ==> Lower(ExtractLocation(text, dash)) in Places
  {
    assert LabelValue(text, "location").None?;
  }

  /** Without a `Location:` line, the location is the leftmost whole-word
      occurrence `i` of a known place, title-cased. */
  lemma ExtractLocationLeftmost(text: string, dash: char, i: nat)
    requires forall i :: 0 <= i <= |text| ==> !LabelMatchesAt(text, "location", i)
    requires PlaceMatchesAt(text, i) && forall j :: 0 <= j < i ==> !PlaceMatchesAt(text, j)
    ensures ExtractLocation(text, dash) == Title(text[i..i + |PlaceAt(text, i).value|])
  {
    assert LabelValue(text, "location").None?;
    var f := PlaceSearch(text);
    if f.value < i {
      assert false;
    }
    if i < f.value {
      assert false;
    }
  }

  /** Every known place is a non-empty lower-case string. */
  lemma PlaceIsLowerWord(place: string)
    requires place in Places
    ensures place != [] && NoUpper(place)
    ensures IsLowerLetter(place[0]) && IsLowerLetter(place[|place| - 1])
  {
  }

  /** Title-casing does not change what a string lower-cases to. */
  lemma TitleThenLower(s: string)
    ensures Lower(Title(s)) == Lower(s)
  {
  }

  /** A case-insensitive match of a lower-case literal lower-cases to it. */
  lemma LowerOfMatch(s: string, i: nat, p: string)
    requires MatchesAt(s, i, p) && NoUpper(p)
    ensures Lower(s[i..i + |p|]) == p
  {
    forall k | 0 <= k < |p| ensures Lower(s[i..i + |p|])[k] == p[k] {
      assert LowerChar(s[i + k]) == LowerChar(p[k]);
    }
  }

  // ---------------------------------------------------------------------
  // _guess_seniority
  // ---------------------------------------------------------------------

  /** `a[-\s]*b[-\s]*c...`: literal pieces joined by runs of hyphens and
      whitespace. Each piece starts with a letter, so the run between two
      pieces is always taken whole. */
  type Pieces = seq<string>

  /** The end of the run of hyphens and whitespace from `i`. */
  function SkipGap(s: string, i: nat): (j: nat)
    requires i <= |s|
    ensures i <= j <= |s|
    ensures forall k :: i <= k < j ==> s[k] == '-' || IsSpace(s[k])
    ensures j < |s| ==> s[j] != '-' && !IsSpace(s[j])
    decreases |s| - i
  {
    if i < |s| && (s[i] == '-' || IsSpace(s[i])) then SkipGap(s, i + 1) else i
  }

  /** Where a match of the pieces starting at `i` ends, case-insensitively. */
  function PiecesEnd(s: string, i: nat, pieces: Pieces): (r: Option<nat>)
    requires i <= |s|
    ensures r.Some? ==> i <= r.value <= |s|
    ensures r.Some? && pieces != [] ==> MatchesAt(s, i, pieces[0]) && i + |pieces[0]| <= r.value
    ensures pieces != [] && !MatchesAt(s, i, pieces[0]) ==> r.None?
    decreases |pieces|
  {
    if pieces == [] then Some(i)
    else if MatchesAt(s, i, pieces[0]) then
      var e := i + |pieces[0]|;
      if |pieces| == 1 then Some(e) else PiecesEnd(s, SkipGap(s, e), pieces[1..])
    else None
  }

  /** `\b(alt1|alt2|...)\b` matches at `i`. */
  predicate WordAlternativesAt(s: string, i: nat, alternatives: seq<Pieces>)
  {
    i <= |s| && Boundary(s, i)
    && exists a :: a in alternatives && PiecesEnd(s, i, a).Some? && Boundary(s, PiecesEnd(s, i, a).value)
  }

  /** `_SENIORITY_MAP`, in priority order. */
  const SeniorityRules: seq<(seq<Pieces>, string)> := [
    ([["principal"], ["lead"], ["staff"]], "Principal/Lead"),
    ([["senior"], ["sr."]], "Senior"),
    ([["mid", "level"], ["intermediate"]], "Mid"),
    ([["junior"], ["jr."]], "Junior")
  ]

  predicate RuleFires(text: string, k: nat)
  {
    k < |SeniorityRules| && exists i :: 0 <= i <= |text| && WordAlternativesAt(text, i, SeniorityRules[k].0)
  }

  /** `_guess_seniority`: the field of the first rule whose pattern occurs, or
      "" when none does. */
  function GuessSeniority(text: string): (r: string)
    ensures r == "" <==> forall k :: 0 <= k < |SeniorityRules| ==> !RuleFires(text, k)
    ensures r != "" ==> exists k :: (0 <= k < |SeniorityRules| && RuleFires(text, k)
      && r == SeniorityRules[k].1 && forall j :: 0 <= j < k ==> !RuleFires(text, j))
  {
    var f := (k: nat) => RuleFires(text, k);
    assert forall k: nat :: f(k) == RuleFires(text, k);
    match FindFirst(0, |SeniorityRules|, f)
    case Some(k) => SeniorityRules[k].1
    case None => ""
  }
}
