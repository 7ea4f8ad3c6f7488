/** The skill normalizer `normalize_text`: lower-case the text once, then for
    each canonical skill in map order rewrite every whole-word occurrence of
    each of its synonyms into the canonical name, and record which canonical
    names were seen. The working text is rewritten in place, so the outcome
    depends on the order of the map; the map is therefore an ordered sequence
    of (canonical name, synonyms) entries. */
module Normalizer {
  import opened Text

  type SkillsMap = seq<(string, seq<string>)>

  /** `(normalized_text, detected)` */
  datatype Normalized = Normalized(text: string, detected: set<string>)

  // ---------------------------------------------------------------------
  // The regex `\b<escaped p>\b`
  // ---------------------------------------------------------------------

  /** `p` occurs literally at `i` with a word boundary on both sides. */
  predicate WholeWordAt(s: string, p: string, i: int)
  {
    0 <= i && i + |p| <= |s| && s[i..i + |p|] == p && Boundary(s, i) && Boundary(s, i + |p|)
  }

  /** `re.search(r"\b" + re.escape(p) + r"\b", s)` succeeds from position `i` on. */
  predicate HasWordFrom(s: string, p: string, i: nat)
    requires i <= |s|
    decreases |s| - i
  {
    WholeWordAt(s, p, i) || (i < |s| && HasWordFrom(s, p, i + 1))
  }

  predicate ContainsWord(s: string, p: string) { HasWordFrom(s, p, 0) }

  /** The scan misses no position: it succeeds exactly when some position holds
      a whole-word occurrence. */
  lemma {:induction false} HasWordFromIff(s: string, p: string, i: nat)
    requires i <= |s|
    ensures HasWordFrom(s, p, i) <==> exists k :: i <= k <= |s| && WholeWordAt(s, p, k)
    decreases |s| - i
  {
    if i < |s| {
      HasWordFromIff(s, p, i + 1);
    }
  }

  /** `re.sub(r"\b" + re.escape(p) + r"\b", r, s)` from position `i` on: matches
      are found left to right without overlapping, and the boundaries are
      always judged on the original `s`. An empty `p` matches (emptily) at every
      boundary position, where `r` is inserted. */
  function ReplaceFrom(s: string, p: string, r: string, i: nat): string
    requires i <= |s|
    decreases |s| - i
  {
    if WholeWordAt(s, p, i) then
      if |p| == 0 then r + (if i < |s| then [s[i]] + ReplaceFrom(s, p, r, i + 1) else [])
      else r + ReplaceFrom(s, p, r, i + |p|)
    else if i < |s| then [s[i]] + ReplaceFrom(s, p, r, i + 1)
    else []
  }

  function ReplaceWord(s: string, p: string, r: string): string { ReplaceFrom(s, p, r, 0) }

  /** Positions without a whole-word occurrence are copied as they are. */
  lemma {:induction false} ReplaceFromSkips(s: string, p: string, r: string, i: nat, j: nat)
    requires i <= j <= |s|
    requires forall k :: i <= k < j ==> !WholeWordAt(s, p, k)
    ensures ReplaceFrom(s, p, r, i) == s[i..j] + ReplaceFrom(s, p, r, j)
    decreases j - i
  {
    if i < j {
      ReplaceFromSkips(s, p, r, i + 1, j);
      assert s[i..j] == [s[i]] + s[i + 1..j];
    }
  }

  /** Where no whole-word occurrence remains, the substitution leaves the text as
      it is: an occurrence inside a larger word is never rewritten. */
  lemma {:induction false} ReplaceFromNoMatch(s: string, p: string, r: string, i: nat)
    requires i <= |s| && !HasWordFrom(s, p, i)
    ensures ReplaceFrom(s, p, r, i) == s[i..]
    decreases |s| - i
  {
    if i < |s| {
      ReplaceFromNoMatch(s, p, r, i + 1);
      assert s[i..] == [s[i]] + s[i + 1..];
    }
  }

  /** The substitution only copies characters of `s` and inserts `r`, so it
      introduces no upper-case letter when neither has one. */
  lemma {:induction false} ReplaceFromNoUpper(s: string, p: string, r: string, i: nat)
    requires i <= |s| && NoUpper(s) && NoUpper(r)
    ensures NoUpper(ReplaceFrom(s, p, r, i))
    decreases |s| - i
  {
    if WholeWordAt(s, p, i) {
      if |p| == 0 {
        if i < |s| {
          ReplaceFromNoUpper(s, p, r, i + 1);
          NoUpperConcat([s[i]], ReplaceFrom(s, p, r, i + 1));
          NoUpperConcat(r, [s[i]] + ReplaceFrom(s, p, r, i + 1));
        } else {
          assert r + [] == r;
        }
      } else {
        ReplaceFromNoUpper(s, p, r, i + |p|);
        NoUpperConcat(r, ReplaceFrom(s, p, r, i + |p|));
      }
    } else if i < |s| {
      ReplaceFromNoUpper(s, p, r, i + 1);
      NoUpperConcat([s[i]], ReplaceFrom(s, p, r, i + 1));
    }
  }

  // ---------------------------------------------------------------------
  // The two nested loops, as functions of the state they update
  // ---------------------------------------------------------------------

  /** The inner loop over one canonical skill's synonyms. */
  function ScanSynonyms(t: string, d: set<string>, canonical: string, synonyms: seq<string>): Normalized
    decreases |synonyms|
  {
    if synonyms == [] then Normalized(t, d)
    else
      var pattern := Lower(synonyms[0]);
      if ContainsWord(t, pattern) then
        ScanSynonyms(ReplaceWord(t, pattern, Lower(canonical)), d + {Lower(canonical)}, canonical, synonyms[1..])
      else
        ScanSynonyms(t, d, canonical, synonyms[1..])
  }

  /** One iteration of the outer loop: the synonyms, then the canonical name itself. */
  function ApplyEntry(st: Normalized, entry: (string, seq<string>)): Normalized
  {
    var after := ScanSynonyms(st.text, st.detected, entry.0, entry.1);
    if ContainsWord(after.text, Lower(entry.0)) then Normalized(after.text, after.detected + {Lower(entry.0)})
    else after
  }

  function ApplyEntries(st: Normalized, entries: SkillsMap): Normalized
    decreases |entries|
  {
    if entries == [] then st else ApplyEntries(ApplyEntry(st, entries[0]), entries[1..])
  }

  /** The canonical names of the map, lower-cased. */
  predicate IsLoweredKey(skills: SkillsMap, name: string)
  {
    exists k :: 0 <= k < |skills| && name == Lower(skills[k].0)
  }

  /** `normalize_text(text, skills_map)` */
  function Normalize(text: string, skills: SkillsMap): (r: Normalized)
    ensures NoUpper(r.text)
    ensures forall name :: name in r.detected ==> IsLoweredKey(skills, name)
    ensures skills == [] ==> r == Normalized(Lower(text), {})
  {
    ApplyEntriesInvariant(Normalized(Lower(text), {}), skills, skills);
    ApplyEntries(Normalized(Lower(text), {}), skills)
  }

  /** The state reached after the first `k` entries of the map. */
  function Working(text: string, skills: SkillsMap, k: nat): Normalized
    requires k <= |skills|
  {
    ApplyEntries(Normalized(Lower(text), {}), skills[..k])
  }

  // ---------------------------------------------------------------------
  // The nested loops of normalize_text
  // ---------------------------------------------------------------------

  method NormalizeText(text: string, skills: SkillsMap) returns (normalizedText: string, detected: set<string>)
    ensures Normalized(normalizedText, detected) == Normalize(text, skills)
  {
    detected := {};
    normalizedText := Lower(text);
    for i := 0 to |skills|
      invariant ApplyEntries(Normalized(normalizedText, detected), skills[i..]) == Normalize(text, skills)
    {
      var (canonical, synonyms) := skills[i];
      ghost var before := Normalized(normalizedText, detected);
      for j := 0 to |synonyms|
        invariant ScanSynonyms(normalizedText, detected, canonical, synonyms[j..])
               == ScanSynonyms(before.text, before.detected, canonical, synonyms)
      {
        var pattern := Lower(synonyms[j]);
        if ContainsWord(normalizedText, pattern) {
          normalizedText := ReplaceWord(normalizedText, pattern, Lower(canonical));
          detected := detected + {Lower(canonical)};
        }
      }
      if ContainsWord(normalizedText, Lower(canonical)) {
        detected := detected + {Lower(canonical)};
      }
      assert skills[i..][1..] == skills[i + 1..];
    }
  }

  // ---------------------------------------------------------------------
  // Properties
  // ---------------------------------------------------------------------

  /** The working text stays free of upper-case letters, and every name
      recorded is a lower-cased canonical name of the map. */
  lemma {:induction false} ApplyEntriesInvariant(st: Normalized, entries: SkillsMap, skills: SkillsMap)
    requires NoUpper(st.text)
    requires forall name :: name in st.detected ==> IsLoweredKey(skills, name)
    requires forall k :: 0 <= k < |entries| ==> entries[k] in skills
    ensures NoUpper(ApplyEntries(st, entries).text)
    ensures forall name :: name in ApplyEntries(st, entries).detected ==> IsLoweredKey(skills, name)
    decreases |entries|
  {
    if entries != [] {
      var e := entries[0];
      var j :| 0 <= j < |skills| && skills[j] == e;
      assert IsLoweredKey(skills, Lower(e.0)) by { assert Lower(e.0) == Lower(skills[j].0); }
      ScanSynonymsInvariant(st.text, st.detected, e.0, e.1, skills);
      assert forall k :: 0 <= k < |entries[1..]| ==> entries[1..][k] == entries[k + 1];
      ApplyEntriesInvariant(ApplyEntry(st, e), entries[1..], skills);
    }
  }

  lemma {:induction false} ScanSynonymsInvariant(t: string, d: set<string>, canonical: string, synonyms: seq<string>, skills: SkillsMap)
    requires NoUpper(t) && IsLoweredKey(skills, Lower(canonical))
    requires forall name :: name in d ==> IsLoweredKey(skills, name)
    ensures NoUpper(ScanSynonyms(t, d, canonical, synonyms).text)
    ensures forall name :: name in ScanSynonyms(t, d, canonical, synonyms).detected ==> IsLoweredKey(skills, name)
    decreases |synonyms|
  {
    if synonyms != [] {
      var pattern := Lower(synonyms[0]);
      if ContainsWord(t, pattern) {
        ReplaceFromNoUpper(t, pattern, Lower(canonical), 0);
        ScanSynonymsInvariant(ReplaceWord(t, pattern, Lower(canonical)), d + {Lower(canonical)}, canonical, synonyms[1..], skills);
      } else {
        ScanSynonymsInvariant(t, d, canonical, synonyms[1..], skills);
      }
    }
  }

  /** Names once recorded stay recorded. */
  lemma {:induction false} ScanSynonymsGrows(t: string, d: set<string>, canonical: string, synonyms: seq<string>)
    ensures d <= ScanSynonyms(t, d, canonical, synonyms).detected
    decreases |synonyms|
  {
    if synonyms != [] {
      var pattern := Lower(synonyms[0]);
      if ContainsWord(t, pattern) {
        ScanSynonymsGrows(ReplaceWord(t, pattern, Lower(canonical)), d + {Lower(canonical)}, canonical, synonyms[1..]);
      } else {
        ScanSynonymsGrows(t, d, canonical, synonyms[1..]);
      }
    }
  }

  lemma {:induction false} ApplyEntriesGrows(st: Normalized, entries: SkillsMap)
    ensures st.detected <= ApplyEntries(st, entries).detected
    decreases |entries|
  {
    if entries != [] {
      ScanSynonymsGrows(st.text, st.detected, entries[0].0, entries[0].1);
      ApplyEntriesGrows(ApplyEntry(st, entries[0]), entries[1..]);
    }
  }

  /** Either some synonym fired (and the canonical name is recorded) or the text
      went through the synonym loop untouched. */
  lemma {:induction false} ScanSynonymsFiredOrUntouched(t: string, d: set<string>, canonical: string, synonyms: seq<string>)
    ensures var r := ScanSynonyms(t, d, canonical, synonyms);
      Lower(canonical) in r.detected || r.text == t
    decreases |synonyms|
  {
    if synonyms != [] {
      var pattern := Lower(synonyms[0]);
      if ContainsWord(t, pattern) {
        ScanSynonymsGrows(ReplaceWord(t, pattern, Lower(canonical)), d + {Lower(canonical)}, canonical, synonyms[1..]);
      } else {
        ScanSynonymsFiredOrUntouched(t, d, canonical, synonyms[1..]);
      }
    }
  }

  /** A synonym present as a whole word when the synonym loop starts makes the
      loop record the canonical name: either it fires itself, or an earlier
      synonym already did. */
  lemma {:induction false} ScanSynonymsDetects(t: string, d: set<string>, canonical: string, synonyms: seq<string>, j: nat)
    requires j < |synonyms| && ContainsWord(t, Lower(synonyms[j]))
    ensures Lower(canonical) in ScanSynonyms(t, d, canonical, synonyms).detected
    decreases |synonyms|
  {
    var pattern := Lower(synonyms[0]);
    if ContainsWord(t, pattern) {
      ScanSynonymsGrows(ReplaceWord(t, pattern, Lower(canonical)), d + {Lower(canonical)}, canonical, synonyms[1..]);
    } else {
      assert j > 0;
      assert synonyms[1..][j - 1] == synonyms[j];
      ScanSynonymsDetects(t, d, canonical, synonyms[1..], j - 1);
    }
  }

  lemma {:induction false} ApplyEntriesAppend(st: Normalized, a: SkillsMap, b: SkillsMap)
    ensures ApplyEntries(st, a + b) == ApplyEntries(ApplyEntries(st, a), b)
    decreases |a|
  {
    if a == [] {
      assert a + b == b;
    } else {
      assert (a + b)[0] == a[0] && (a + b)[1..] == a[1..] + b;
      ApplyEntriesAppend(ApplyEntry(st, a[0]), a[1..], b);
    }
  }

  /** The final result is the working state after `k` entries, run through the rest. */
  lemma WorkingThenRest(text: string, skills: SkillsMap, k: nat)
    requires k < |skills|
    ensures Normalize(text, skills)
         == ApplyEntries(ApplyEntry(Working(text, skills, k), skills[k]), skills[k + 1..])
  {
    assert skills == skills[..k] + skills[k..];
    ApplyEntriesAppend(Normalized(Lower(text), {}), skills[..k], skills[k..]);
    assert skills[k..][0] == skills[k] && skills[k..][1..] == skills[k + 1..];
  }

  /** Detection: if, when canonical skill `k` is reached, one of its synonyms
      occurs as a whole word in the working text, the skill is detected. */
  lemma SynonymDetected(text: string, skills: SkillsMap, k: nat, j: nat)
    requires k < |skills| && j < |skills[k].1|
    requires ContainsWord(Working(text, skills, k).text, Lower(skills[k].1[j]))
    ensures Lower(skills[k].0) in Normalize(text, skills).detected
  {
    var w := Working(text, skills, k);
    ScanSynonymsDetects(w.text, w.detected, skills[k].0, skills[k].1, j);
    ApplyEntriesGrows(ApplyEntry(w, skills[k]), skills[k + 1..]);
    WorkingThenRest(text, skills, k);
  }

  /** Detection of a verbatim canonical name: if, when canonical skill `k` is
      reached, its own name occurs as a whole word in the working text, the
      skill is detected, whether or not a synonym fired. */
  lemma CanonicalDetected(text: string, skills: SkillsMap, k: nat)
    requires k < |skills|
    requires ContainsWord(Working(text, skills, k).text, Lower(skills[k].0))
    ensures Lower(skills[k].0) in Normalize(text, skills).detected
  {
    var w := Working(text, skills, k);
    ScanSynonymsFiredOrUntouched(w.text, w.detected, skills[k].0, skills[k].1);
    ApplyEntriesGrows(ApplyEntry(w, skills[k]), skills[k + 1..]);
    WorkingThenRest(text, skills, k);
  }

  /** Nothing to rewrite: when the lower-cased text holds no synonym and no
      canonical name as a whole word, the text is only lower-cased and nothing
      is detected (the empty map is the special case with no entries). */
  lemma NoMatchOnlyLowers(text: string, skills: SkillsMap)
    requires forall k, j :: 0 <= k < |skills| && 0 <= j < |skills[k].1| ==> !ContainsWord(Lower(text), Lower(skills[k].1[j]))
    requires forall k :: 0 <= k < |skills| ==> !ContainsWord(Lower(text), Lower(skills[k].0))
    ensures Normalize(text, skills) == Normalized(Lower(text), {})
  {
    ApplyEntriesNoMatch(Lower(text), skills);
  }

  lemma {:induction false} ApplyEntriesNoMatch(t: string, entries: SkillsMap)
    requires forall k, j :: 0 <= k < |entries| && 0 <= j < |entries[k].1| ==> !ContainsWord(t, Lower(entries[k].1[j]))
    requires forall k :: 0 <= k < |entries| ==> !ContainsWord(t, Lower(entries[k].0))
    ensures ApplyEntries(Normalized(t, {}), entries) == Normalized(t, {})
    decreases |entries|
  {
    if entries != [] {
      ScanSynonymsNoMatch(t, entries[0].0, entries[0].1);
      assert forall k :: 0 <= k < |entries[1..]| ==> entries[1..][k] == entries[k + 1];
      ApplyEntriesNoMatch(t, entries[1..]);
    }
  }

  lemma {:induction false} ScanSynonymsNoMatch(t: string, canonical: string, synonyms: seq<string>)
    requires forall j :: 0 <= j < |synonyms| ==> !ContainsWord(t, Lower(synonyms[j]))
    ensures ScanSynonyms(t, {}, canonical, synonyms) == Normalized(t, {})
    decreases |synonyms|
  {
    if synonyms != [] {
      assert forall j :: 0 <= j < |synonyms[1..]| ==> synonyms[1..][j] == synonyms[j + 1];
      ScanSynonymsNoMatch(t, canonical, synonyms[1..]);
    }
  }

  // ---------------------------------------------------------------------
  // Concrete consequences of the whole-word rule and of in-place rewriting
  // ---------------------------------------------------------------------

  /** An instance of `NoMatchOnlyLowers`: with `java` as the only synonym, `JavaScript`
      is only lower-cased, since `java` is not a whole word there. */
  lemma JavaInsideJavaScript()
    ensures Normalize("JavaScript", [("Java", ["java"])]) == Normalized("javascript", {})
  {
    LowerJava();
    JavaNotWholeWord();
    NoMatchOnlyLowers("JavaScript", [("Java", ["java"])]);
  }

  lemma LowerJava()
    ensures Lower("JavaScript") == "javascript" && Lower("Java") == "java" && Lower("java") == "java"
  {
  }

  lemma JavaNotWholeWord()
    ensures !ContainsWord("javascript", "java")
  {
    HasWordFromIff("javascript", "java", 0);
    forall k | 0 <= k <= |"javascript"| ensures !WholeWordAt("javascript", "java", k) {
      if k == 0 { assert !Boundary("javascript", 4); }
      else if k + 4 <= 10 { assert "javascript"[k..k + 4] != "java"; }
    }
  }

  /** `\b` after a final `+` needs a word character next, so "c++" is found
      inside "c++11" but not before a space. */
  lemma PlusPlusNeedsWordAfter()
    ensures !ContainsWord("c++ developer", "c++")
    ensures ContainsWord("c++11", "c++")
  {
    PlusPlusBeforeSpace();
    assert WholeWordAt("c++11", "c++", 0);
  }

  lemma PlusPlusBeforeSpace()
    ensures !ContainsWord("c++ developer", "c++")
  {
    HasWordFromIff("c++ developer", "c++", 0);
    forall k | 0 <= k <= |"c++ developer"| ensures !WholeWordAt("c++ developer", "c++", k) {
      if k == 0 { assert !Boundary("c++ developer", 3); }
      else if k + 3 <= 13 { assert "c++ developer"[k..k + 3][0] == "c++ developer"[k] != 'c'; }
    }
  }

  /** Normalizing is not idempotent: when a canonical name contains one of its
      own synonyms as a whole word, a second pass rewrites it again. */
  lemma NotIdempotent()
    ensures Normalize("ad", [("Azure AD", ["ad"])]).text == "azure ad"
    ensures Normalize(Normalize("ad", [("Azure AD", ["ad"])]).text, [("Azure AD", ["ad"])]).text == "azure azure ad"
  {
    assert Lower("ad") == "ad";
    assert Lower("Azure AD") == "azure ad";
    assert Lower("azure ad") == "azure ad";
    FirstPass();
    SecondPass();
  }

  lemma FirstPass()
    ensures ContainsWord("ad", "ad") && ReplaceWord("ad", "ad", "azure ad") == "azure ad"
  {
    assert WholeWordAt("ad", "ad", 0);
    assert ReplaceFrom("ad", "ad", "azure ad", 2) == [];
  }

  lemma SecondPass()
    ensures ContainsWord("azure ad", "ad") && ReplaceWord("azure ad", "ad", "azure ad") == "azure azure ad"
  {
    var s, p, r := "azure ad", "ad", "azure ad";
    SecondPassFinds();
    ReplaceFromSkips(s, p, r, 0, 6);
    assert WholeWordAt(s, p, 6);
    assert ReplaceFrom(s, p, r, 8) == [];
    assert ReplaceFrom(s, p, r, 6) == r;
    assert s[0..6] == "azure ";
  }

  lemma SecondPassFinds()
    ensures ContainsWord("azure ad", "ad")
    ensures forall k :: 0 <= k < 6 ==> !WholeWordAt("azure ad", "ad", k)
  {
    var s, p := "azure ad", "ad";
    assert WholeWordAt(s, p, 6);
    assert HasWordFrom(s, p, 6);
    assert !WholeWordAt(s, p, 5) && HasWordFrom(s, p, 5);
    assert !WholeWordAt(s, p, 4) && HasWordFrom(s, p, 4);
    assert !WholeWordAt(s, p, 3) && HasWordFrom(s, p, 3);
    assert !WholeWordAt(s, p, 2) && HasWordFrom(s, p, 2);
    assert !WholeWordAt(s, p, 1) && HasWordFrom(s, p, 1);
    assert !WholeWordAt(s, p, 0) && HasWordFrom(s, p, 0);
  }
}
