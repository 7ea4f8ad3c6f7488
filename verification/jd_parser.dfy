/** `parse_jd`: the job-description record assembled from the field
    heuristics, the three bullet sections, the skill normalizer and the
    keyword ranking, with the section lists capped at 15, 15 and 30 entries
    and the detected skills listed in sorted order. */
module JdParser {
  import opened Text
  import opened Normalizer
  import opened JdFields
  import opened JdSections
  import opened Keywords

  /** The two copies of the parser differ only in the dash `_clean_line`
      strips: an en dash in the parser module, an em dash in the app. */
  datatype Copy = ParserModule | InlineApp

  function TrailingDash(copy: Copy): char
  {
    match copy
    case ParserModule => EnDash
    case InlineApp => EmDash
  }

  /** The dictionary `parse_jd` returns. */
  datatype JdRecord = JdRecord(
    title: string,
    company: string,
    location: string,
    seniority: string,
    mustHaves: seq<string>,
    niceToHaves: seq<string>,
    responsibilities: seq<string>,
    keywords: seq<string>,
    normalizedSkills: seq<string>,
    normalizedText: string)

  // ---------------------------------------------------------------------
  // sorted() on strings: code-point lexicographic order
  // ---------------------------------------------------------------------

  /** Python's `a < b` on strings. */
  predicate LexLess(a: string, b: string)
    decreases |a|
  {
    if a == [] then b != []
    else if b == [] then false
    else if a[0] != b[0] then a[0] < b[0]
    else LexLess(a[1..], b[1..])
  }

  lemma {:induction false} LexLessIrreflexive(a: string)
    ensures !LexLess(a, a)
    decreases |a|
  {
    if a != [] {
      LexLessIrreflexive(a[1..]);
    }
  }

  lemma {:induction false} LexLessAsymmetric(a: string, b: string)
    requires LexLess(a, b)
    ensures !LexLess(b, a)
    decreases |a|
  {
    if a != [] && b != [] && a[0] == b[0] {
      LexLessAsymmetric(a[1..], b[1..]);
    }
  }

  lemma {:induction false} LexLessTransitive(a: string, b: string, c: string)
    requires LexLess(a, b) && LexLess(b, c)
    ensures LexLess(a, c)
    decreases |a|
  {
    if a != [] && b != [] && c != [] && a[0] == b[0] && b[0] == c[0] {
      LexLessTransitive(a[1..], b[1..], c[1..]);
    }
  }

  lemma {:induction false} LexLessTotal(a: string, b: string)
    requires a != b
    ensures LexLess(a, b) || LexLess(b, a)
    decreases |a|
  {
    if a != [] && b != [] && a[0] == b[0] {
      assert a == [a[0]] + a[1..] && b == [b[0]] + b[1..];
      LexLessTotal(a[1..], b[1..]);
    }
  }

  predicate StrictlyAscending(s: seq<string>)
  {
    forall p, q :: 0 <= p < q < |s| ==> LexLess(s[p], s[q])
  }

  /** Every non-empty finite set of strings has a least element. */
  lemma {:induction false} LeastExists(s: set<string>)
    requires s != {}
    ensures exists m :: m in s && forall x :: x in s && x != m ==> LexLess(m, x)
    decreases |s|
  {
    var y :| y in s;
    var rest := s - {y};
    if rest == {} {
      assert s == {y};
    } else {
      LeastExists(rest);
      var m :| m in rest && forall x :: x in rest && x != m ==> LexLess(m, x);
      if LexLess(m, y) {
        assert forall x :: x in s && x != m ==> LexLess(m, x);
      } else {
        LexLessTotal(m, y);
        forall x | x in s && x != y ensures LexLess(y, x) {
          if x != m {
            LexLessTransitive(y, m, x);
          }
        }
      }
    }
  }

  /** `sorted(s)`: the elements of `s`, each once, in ascending order. */
  ghost function SortedSet(s: set<string>): (r: seq<string>)
    ensures StrictlyAscending(r) && |r| == |s|
    ensures forall x :: x in r <==> x in s
    decreases |s|
  {
    if s == {} then []
    else
      LeastExists(s);
      var m :| m in s && forall x :: x in s && x != m ==> LexLess(m, x);
      var rest := SortedSet(s - {m});
      assert forall q :: 0 <= q < |rest| ==> rest[q] in s - {m};
      [m] + rest
  }

  /** Two strictly ascending sequences of the same length with the same elements are equal. */
  lemma {:induction false} AscendingUnique(a: seq<string>, b: seq<string>)
    requires StrictlyAscending(a) && StrictlyAscending(b)
    requires |a| == |b| && forall x :: x in a <==> x in b
    ensures a == b
    decreases |a|
  {
    if a != [] {
      assert a[0] in a && b[0] in b;
      if a[0] != b[0] {
        var i :| 0 <= i < |a| && a[i] == b[0];
        var j :| 0 <= j < |b| && b[j] == a[0];
        assert LexLess(a[0], b[0]) && LexLess(b[0], a[0]);
        LexLessAsymmetric(a[0], b[0]);
        assert false;
      }
      forall x ensures x in a[1..] <==> x in b[1..] {
        if x in a[1..] {
          var i :| 1 <= i < |a| && a[i] == x;
          LexLessIrreflexive(a[0]);
          assert x in b;
          var j :| 0 <= j < |b| && b[j] == x;
          assert j != 0;
          assert b[1..][j - 1] == x;
        }
        if x in b[1..] {
          var j :| 1 <= j < |b| && b[j] == x;
          LexLessIrreflexive(b[0]);
          assert x in a;
          var i :| 0 <= i < |a| && a[i] == x;
          assert i != 0;
          assert a[1..][i - 1] == x;
        }
      }
      AscendingUnique(a[1..], b[1..]);
      assert a == [a[0]] + a[1..] && b == [b[0]] + b[1..];
    }
  }

  /** Appending the least remaining element keeps the output ascending and
      below everything that remains. */
  lemma AppendLeast(r: seq<string>, rest: set<string>, m: string)
    requires StrictlyAscending(r) && m in rest
    requires forall p, x :: 0 <= p < |r| && x in rest ==> LexLess(r[p], x)
    requires forall x :: x in rest && x != m ==> LexLess(m, x)
    ensures StrictlyAscending(r + [m])
    ensures forall p, x :: 0 <= p < |r| + 1 && x in rest - {m} ==> LexLess((r + [m])[p], x)
  {
  }

  /** `sorted(detected)`: repeatedly takes the least remaining element. */
  method SortStrings(s: set<string>) returns (r: seq<string>)
    ensures r == SortedSet(s)
  {
    r := [];
    var rest := s;
    while rest != {}
      invariant StrictlyAscending(r)
      invariant forall x :: x in s <==> x in r || x in rest
      invariant forall x :: x in r ==> x !in rest
      invariant |r| + |rest| == |s|
      invariant forall p, x :: 0 <= p < |r| && x in rest ==> LexLess(r[p], x)
      decreases |rest|
    {
      LeastExists(rest);
      var m :| m in rest && forall x :: x in rest && x != m ==> LexLess(m, x);
      AppendLeast(r, rest, m);
      r := r + [m];
      rest := rest - {m};
    }
    AscendingUnique(r, SortedSet(s));
  }

  // ---------------------------------------------------------------------
  // parse_jd
  // ---------------------------------------------------------------------

  /** `parse_jd(jd_text, skills_map, top_kw)`, with the skills map already loaded. */
  ghost function ParseJdSpec(jdText: string, skills: SkillsMap, topKw: int, copy: Copy): (r: JdRecord)
    ensures var dash := TrailingDash(copy); var text := Strip(jdText);
      |r.mustHaves| <= 15 && r.mustHaves <= NormalizedLines(Bullets(text, MustHaveHeaders, dash), skills)
      && |r.niceToHaves| <= 15 && r.niceToHaves <= NormalizedLines(Bullets(text, NiceToHaveHeaders, dash), skills)
      && |r.responsibilities| <= 30 && r.responsibilities <= NormalizedLines(Bullets(text, ResponsibilityHeaders, dash), skills)
    ensures StrictlyAscending(r.normalizedSkills)
    ensures forall x :: x in r.normalizedSkills <==> x in Normalize(Strip(jdText), skills).detected
    ensures forall x :: x in r.normalizedSkills ==> IsLoweredKey(skills, x)
    ensures topKw >= 0 ==> |r.keywords| <= topKw
    ensures NoUpper(r.normalizedText)
  {
    var dash := TrailingDash(copy);
    var text := Strip(jdText);
    var norm := Normalize(text, skills);
    JdRecord(
      ExtractTitle(text, dash),
      ExtractCompany(text, dash),
      ExtractLocation(text, dash),
      GuessSeniority(text),
      PyPrefix(NormalizedLines(Bullets(text, MustHaveHeaders, dash), skills), 15),
      PyPrefix(NormalizedLines(Bullets(text, NiceToHaveHeaders, dash), skills), 15),
      PyPrefix(NormalizedLines(Bullets(text, ResponsibilityHeaders, dash), skills), 30),
      Keywords.Keywords(norm.text, topKw, Stopwords),
      SortedSet(norm.detected),
      norm.text)
  }

  /** `parse_jd`: the same steps in the same order. */
  method ParseJd(jdText: string, skills: SkillsMap, topKw: int, copy: Copy) returns (r: JdRecord)
    ensures r == ParseJdSpec(jdText, skills, topKw, copy)
  {
    var dash := TrailingDash(copy);
    var text := Strip(jdText);
    var title := ExtractTitle(text, dash);
    var company := ExtractCompany(text, dash);
    var location := ExtractLocation(text, dash);
    var seniority := GuessSeniority(text);
    var mustHavesRaw := ExtractBullets(text, MustHaveHeaders, dash);
    var niceToHavesRaw := ExtractBullets(text, NiceToHaveHeaders, dash);
    var responsibilitiesRaw := ExtractBullets(text, ResponsibilityHeaders, dash);
    var normalizedText, detected := NormalizeText(text, skills);
    var mustHaves := NormalizeLines(mustHavesRaw, skills);
    var niceToHaves := NormalizeLines(niceToHavesRaw, skills);
    var responsibilities := NormalizeLines(responsibilitiesRaw, skills);
    var keywords := TopKeywords(normalizedText, topKw, Stopwords);
    var sortedSkills := SortStrings(detected);
    r := JdRecord(title, company, location, seniority,
      PyPrefix(mustHaves, 15), PyPrefix(niceToHaves, 15), PyPrefix(responsibilities, 30),
      keywords, sortedSkills, normalizedText);
  }

  // ---------------------------------------------------------------------
  // Blank input
  // ---------------------------------------------------------------------

  /** Nothing occurs as a whole word in the empty text. */
  lemma NormalizeEmpty(skills: SkillsMap)
    ensures Normalize("", skills) == Normalized("", {})
  {
    assert Lower("") == "";
    forall p: string ensures !ContainsWord("", p) {
      assert !Boundary("", 0);
    }
    NoMatchOnlyLowers("", skills);
  }

  /** The four field heuristics find nothing in the empty text. */
  lemma BlankFields(dash: char)
    ensures ExtractTitle("", dash) == "" && ExtractCompany("", dash) == ""
    ensures ExtractLocation("", dash) == "" && GuessSeniority("") == ""
  {
    assert LabelValue("", "title").None? && LabelValue("", "company").None? && LabelValue("", "location").None?;
    assert ExtractCompany("", dash) == "" by {
      assert !AboutMatchesAt("", 0);
      ExtractCompanyFallback("", dash);
    }
    assert ExtractLocation("", dash) == "" by {
      assert !PlaceMatchesAt("", 0);
      ExtractLocationFallback("", dash);
    }
    forall k | 0 <= k < |SeniorityRules| ensures !RuleFires("", k) {
      assert !WordAlternativesAt("", 0, SeniorityRules[k].0);
    }
  }

  /** No section header, and no keyword, is found in the empty text. */
  lemma BlankLists(topKw: int)
    ensures HeaderStart("", MustHaveHeaders).None? && HeaderStart("", NiceToHaveHeaders).None?
    ensures HeaderStart("", ResponsibilityHeaders).None?
    ensures Keywords.Keywords("", topKw, Stopwords) == []
  {
    assert Tokens("") == [];
    assert Kept([], Stopwords) == [];
    assert Distinct([]) == [];
  }

  /** A blank job description gives empty fields and empty lists. */
  lemma ParseBlank(jdText: string, skills: SkillsMap, topKw: int, copy: Copy)
    requires AllSpace(jdText)
    ensures ParseJdSpec(jdText, skills, topKw, copy) == JdRecord("", "", "", "", [], [], [], [], [], "")
  {
    assert Strip(jdText) == "";
    NormalizeEmpty(skills);
    BlankFields(TrailingDash(copy));
    BlankLists(topKw);
  }
}
