# Job-description parsing and snippet re-ranking, modelled in Dafny

This project models the text-processing core of a CV-personalisation tool.

- **Skill normalizer** (`normalize_text`). It lower-cases a job description once. Then, for each canonical skill in map order, it rewrites every whole-word occurrence of each synonym into the canonical name. It records the canonical names it saw, either through a synonym or verbatim.
- **Job-description parser** (`parse_jd` and its helpers). It builds a record from the stripped text:
  - title, company and location, each from a labelled line or a fallback heuristic;
  - a seniority label, from the first rule of a fixed priority list that matches;
  - three bullet sections, each found under a header and cut at a blank line;
  - the normalized text and the detected skills;
  - the most frequent non-stopword tokens.
- **Snippet re-ranking** (`_overlap_score` and the body of `query_snippets` after the vector-store query). It scores each retrieved snippet as `1/(1+distance)` plus a quarter of the Jaccard overlap between the snippet's tags and the job's skills. It sorts stably by that score, descending, and keeps the first `top_k` documents.

Every regular expression of the core is modelled by hand as a character-level scanner, including:

- the word boundary `\b`;
- multi-line `^`/`$`;
- greedy and lazy quantifiers;
- `re.search` as a leftmost match;
- `re.sub` as a left-to-right scan;
- `re.findall`.

Python's `str.strip`, `splitlines` and `split` use the full set of characters Python treats as whitespace and line boundaries. `lower`, `upper` and `title` are modelled on ASCII. The stable `sorted`/`list.sort` is modelled as a stable insertion sort; a stable sort's output is unique, so any stable sort gives the same result.

Code that loops and mutates becomes a method proved equal to a specification function. This covers `normalize_text`, `_extract_bullets`, `_normalize_lines`, `_top_keywords` (with its insertion-ordered `freq` table), `parse_jd`, `sorted(detected_skills)` and the boosting loop of `query_snippets`. The properties are proved about the specification functions.

The repository holds two copies of the parser and the normalizer: `jd_parser.py` with `normalize_skills.py`, and an inline copy in `1.py`. They differ in one place the model sees: `_clean_line` strips a trailing en dash in `jd_parser.py:219` and an em dash in `1.py:30`. One model covers both. The dash is a parameter, chosen by `JdParser.Copy`.

Files:

- `text.dfy`: character classes, ASCII case mapping, strip, splitlines, word boundary, leftmost search, slicing.
- `sorting.dfy`: a stable descending sort and its properties.
- `normalizer.dfy`: `normalize_text`.
- `jd_fields.dfy`: `_clean_line`, `_sentence_case`, the title, company and location extractors, and `_guess_seniority`.
- `jd_sections.dfy`: `_extract_bullets` and `_normalize_lines`.
- `keywords.dfy`: `_top_keywords`. The stopword set is a parameter; `parse_jd` passes the fixed `_STOPWORDS` list (`Keywords.Stopwords`), and the properties hold for any set.
- `jd_parser.dfy`: `parse_jd` and `sorted()` on strings.
- `retrieval.dfy`: `_overlap_score` and the re-ranking.

Two facts about the code are worth knowing:

- `normalize_text` is not idempotent. With `ad` mapped to `Azure AD`, a second pass turns `azure ad` into `azure azure ad` (`Normalizer.NotIdempotent`).
- The trailing punctuation that `_clean_line` strips includes the en dash in `jd_parser.py:219` and the em dash in `1.py:30`; neither copy strips both.

## Model

| member | source | states |
|---|---|---|
| Text.Lower | normalize_skills.py:19 | `str.lower` on ASCII: same length, no upper-case letter left, each character mapped by the ASCII lower-case map |
| Text.LowerOfLowered | normalize_skills.py:24 | lower-casing text that is already lower-case changes nothing |
| Text.Title | jd_parser.py:157 | `str.title` keeps the length and each character's lower-case form, leaves non-letters alone, and makes a letter upper-case exactly when it starts a word (no letter before it) |
| Text.Strip | jd_parser.py:70 | the result has no whitespace at either end, is no longer than the input, and is empty exactly when the input is all whitespace |
| Text.StripIsSlice | jd_parser.py:70 | the stripped string is the slice of the input between a whitespace-only prefix and a whitespace-only suffix |
| Text.StripStripped | jd_parser.py:217 | stripping an already stripped string changes nothing |
| Text.StripKeepsFront | jd_parser.py:219 | a string that starts with a non-space strips to a prefix of itself, dropping only whitespace |
| Text.LowersToLetter | jd_parser.py:157 | a character that lower-cases to a letter is a letter, hence not whitespace |
| Text.SplitLines | jd_parser.py:188 | no line holds a line boundary; the line list is empty exactly when the text is |
| Text.FirstBreak | jd_parser.py:188 | where the first line ends and the next begins: no boundary before the end, the gap is one separator (`\r\n` or one boundary character), and a `\r` separator is not followed by `\n` |
| Text.LineSepsLength | jd_parser.py:188 | there is one separator per line |
| Text.LineSepsShape | jd_parser.py:188 | each separator is `\r\n` or one line boundary, except an empty one after a last line that has no break |
| Text.JoinCons | jd_parser.py:188 | joining a line and its separator in front of a joined list |
| Text.RejoinStep | jd_parser.py:188 | a first line and its separator, followed by the rejoined rest, give back the text |
| Text.SplitLinesRejoin | jd_parser.py:188 | the lines, each followed by its separator, concatenate back to the text: nothing is lost, nothing is added, and no empty line follows a final break |
| Text.FirstSepNotLf | jd_parser.py:188 | a text that does not start with `\n` does not yield an empty first line ended by `\n` |
| Text.SplitLinesCrLf | jd_parser.py:188 | `\r\n` is one separator: no empty line is split off between a `\r` and a following `\n` |
| Text.StripEach | jd_parser.py:188 | one stripped line per input line, in order |
| Text.FindFirst | jd_parser.py:174 | the leftmost position satisfying the predicate, with none before it, or none at all |
| Text.PyPrefix | jd_parser.py:100-102 | a slice `[:n]` is a prefix of length `min(n, len)` for `n >= 0`, and drops `-n` elements from the end otherwise |
| Sorting.SortDesc | jd_parser.py:233 | the sorted list is a permutation of the input with non-increasing keys |
| Sorting.SortDescStable | 1.py:211 | for every key value, the elements with that key keep their input order |
| Sorting.SortDescThenRank | jd_parser.py:233 | elements with equal keys come out in increasing order of any rank that increases along the input |
| Sorting.SortDescInjective | jd_parser.py:233 | sorting keeps elements distinct under any map that kept them distinct |
| Sorting.SortedPrefixIsTop | 1.py:211-212 | a prefix of a sorted list is sorted, and every element cut off has a key no greater than every element kept |
| Normalizer.HasWordFromIff | normalize_skills.py:24-25 | the whole-word search succeeds exactly when some position holds the word with a `\b` on both sides |
| Normalizer.ReplaceFromSkips | normalize_skills.py:26 | the substitution copies a stretch holding no whole-word occurrence unchanged and carries on after it |
| Normalizer.ReplaceFromNoMatch | normalize_skills.py:26 | with no whole-word occurrence left, the substitution returns the text unchanged |
| Normalizer.ReplaceFromNoUpper | normalize_skills.py:26 | substituting a lower-case name into lower-case text leaves no upper-case letter |
| Normalizer.Normalize | normalize_skills.py:13-32 | the output text has no upper-case letter; every detected name is the lower-cased form of a canonical key of the map; an empty map gives the lower-cased text and nothing detected |
| Normalizer.NormalizeText | normalize_skills.py:13-32 | the nested loops that rewrite the working text and grow the detected set compute exactly `Normalize` |
| Normalizer.ApplyEntriesInvariant | normalize_skills.py:21-30 | the outer loop keeps the text free of upper-case letters and the detected set made of lowered canonical keys |
| Normalizer.ScanSynonymsInvariant | normalize_skills.py:22-27 | the same invariant for the inner loop over one skill's synonyms |
| Normalizer.ScanSynonymsGrows | normalize_skills.py:27 | the inner loop never removes a detected name |
| Normalizer.ApplyEntriesGrows | normalize_skills.py:30 | the outer loop never removes a detected name |
| Normalizer.ScanSynonymsFiredOrUntouched | normalize_skills.py:22-27 | after one skill's synonyms, either the canonical name was recorded or the text is unchanged |
| Normalizer.ScanSynonymsDetects | normalize_skills.py:22-27 | a synonym present as a whole word when the synonym loop starts gets its canonical name recorded |
| Normalizer.ApplyEntriesAppend | normalize_skills.py:21 | processing the map in two parts equals processing it at once |
| Normalizer.WorkingThenRest | normalize_skills.py:21 | the result is the state after the first `k` skills run through the remaining skills |
| Normalizer.SynonymDetected | normalize_skills.py:22-27 | a synonym of skill `k` present as a whole word when skill `k` is reached makes its canonical name detected |
| Normalizer.CanonicalDetected | normalize_skills.py:29-30 | a canonical name present verbatim as a whole word when its skill is reached is detected even if no synonym matched |
| Normalizer.NoMatchOnlyLowers | normalize_skills.py:19-30 | with no whole-word synonym and no whole-word canonical name in the lower-cased text, the text is only lower-cased and nothing is detected |
| Normalizer.ApplyEntriesNoMatch | normalize_skills.py:21-30 | the outer loop with nothing to match leaves the state as it is |
| Normalizer.ScanSynonymsNoMatch | normalize_skills.py:22-27 | the inner loop with nothing to match leaves the state as it is |
| Normalizer.JavaNotWholeWord | normalize_skills.py:24 | `java` is not a whole word of `javascript` |
| Normalizer.JavaInsideJavaScript | normalize_skills.py:24-25 | one instance of `NoMatchOnlyLowers`: with `java` as the only synonym, `JavaScript` is only lower-cased and nothing is detected |
| Normalizer.PlusPlusNeedsWordAfter | normalize_skills.py:24 | `c++` is not found in `c++ developer` but is found in `c++11`, because `\b` after `+` needs a word character next |
| Normalizer.NotIdempotent | normalize_skills.py:21-27 | a second pass over normalized text can change it again: `ad` becomes `azure ad`, then `azure azure ad` |
| Normalizer.FirstPass | normalize_skills.py:24-26 | the first pass finds `ad` and rewrites it to `azure ad` |
| Normalizer.SecondPass | normalize_skills.py:24-26 | the second pass finds `ad` again and rewrites `azure ad` to `azure azure ad` |
| Normalizer.SecondPassFinds | normalize_skills.py:24 | `ad` occurs as a whole word in `azure ad`, and not at positions 0 to 5 |
| JdFields.DropTrailingPunct | jd_parser.py:219 | the result is a prefix that does not end in the punctuation class, and everything dropped is in that class |
| JdFields.CleanLine | jd_parser.py:216-220 | the result is the stripped input with its maximal run of trailing punctuation removed, stripped again; it is a stripped prefix of the stripped input; everything after it is whitespace or trailing punctuation; it is empty exactly when the stripped input is all punctuation; it is the stripped input when that does not end in punctuation |
| JdFields.CleanTail | jd_parser.py:219 | what the cleaning removes from a stripped line is its end, all whitespace or punctuation |
| JdFields.CleanEmpty | jd_parser.py:216-220 | cleaning a stripped line gives the empty string exactly when the line is all punctuation, and the line itself when it does not end in punctuation |
| JdFields.CleanDropsRun | jd_parser.py:219 | the punctuation removed is exactly the maximal trailing run: it starts after a non-punctuation character or at the start |
| JdFields.CleanLineExamples | jd_parser.py:216-220 | `Engineer.` cleans to `Engineer` |
| JdFields.SentenceCase | jd_parser.py:209-213 | only the first character of the stripped text may change, and only to its upper-case form; blank input gives `""` |
| JdFields.SentenceCaseIdempotent | jd_parser.py:209-213 | sentence-casing twice is the same as once |
| JdFields.LineEnd | jd_parser.py:123 | the greedy `.+` of a non-DOTALL pattern stops at the next newline or the end |
| JdFields.LastNonNewline | jd_parser.py:123 | the last position before a line end that is not a newline, if any |
| JdFields.LabelValue | jd_parser.py:123 | a labelled-line capture exists exactly when some position matches the pattern, and it is the capture at the leftmost such position |
| JdFields.FirstNonBlank | jd_parser.py:128-130 | the stripped line at the first index `k` whose line is not blank, every line before `k` being blank; none exactly when all lines are blank |
| JdFields.FirstNonBlankLine | jd_parser.py:128-130 | the same over `splitlines()` of the text: the first non-blank line, stripped, or none when every line is blank |
| JdFields.FirstNonBlankAt | jd_parser.py:128-130 | the first non-blank line is the one at `k` whenever every line before `k` is blank |
| JdFields.ExtractTitle | jd_parser.py:121-134 | the title is stripped |
| JdFields.ExtractTitleCases | jd_parser.py:122-125 | when a `Title:` line matches, the title is the cleaned capture of the leftmost one |
| JdFields.ExtractTitleFirstLine | jd_parser.py:127-133 | without a `Title:` line and with `k` the first non-blank line, the title is that line stripped and cleaned when it has at most 12 words and no company phrase, and `""` otherwise |
| JdFields.ExtractTitleBlank | jd_parser.py:127-134 | without a `Title:` line and with every line blank, the title is `""` |
| JdFields.CompanyRun | jd_parser.py:143 | the greedy `{2,40}` run of company characters, capped, ends at a non-company character or the end |
| JdFields.AboutAt | jd_parser.py:143 | an `About <Name>` capture holds 3 to 41 characters and starts with a letter |
| JdFields.ExtractCompany | jd_parser.py:137-146 | the company is stripped |
| JdFields.ExtractCompanyLabelled | jd_parser.py:138-140 | when a `Company:` line matches, the company is the cleaned capture of the leftmost one, whatever `About` phrases the text holds |
| JdFields.ExtractCompanyFallback | jd_parser.py:142-146 | without a `Company:` line, the company is `""` when no `About` phrase matches, and otherwise the cleaned capture of the leftmost match |
| JdFields.PlaceAt | jd_parser.py:156 | the first alternative of the place list that matches as a whole word at a position, or none |
| JdFields.PlaceSearch | jd_parser.py:156 | the leftmost position where a known place matches as a whole word, or none |
| JdFields.TitledPlace | jd_parser.py:157 | the title-cased match is non-empty, stripped and lower-cases to a known place |
| JdFields.ExtractLocation | jd_parser.py:149-157 | the location is stripped |
| JdFields.ExtractLocationLabelled | jd_parser.py:151-153 | when a `Location:` line matches, the location is the cleaned capture of the leftmost one, whatever places the text names |
| JdFields.ExtractLocationFallback | jd_parser.py:149-157 | without a `Location:` line, the location is `""` exactly when no known place occurs as a whole word, and otherwise lower-cases to one of the known places |
| JdFields.ExtractLocationLeftmost | jd_parser.py:156-157 | without a `Location:` line, the location is the title-cased text of the leftmost whole-word match of a known place |
| JdFields.TitleOfPlaceIsStripped | jd_parser.py:157 | title-casing a match of a place that starts and ends with a letter gives a stripped string |
| JdFields.TitleThenLower | jd_parser.py:157 | title-casing does not change what a string lower-cases to |
| JdFields.LowerOfMatch | jd_parser.py:156 | a case-insensitive match of a lower-case literal lower-cases to that literal |
| JdFields.SkipGap | jd_parser.py:39 | the greedy `[-\s]*` run: every character skipped is a hyphen or whitespace, and the next one is neither |
| JdFields.PiecesEnd | jd_parser.py:37-40 | a match of the pieces starting at `i` needs the first piece there, and ends within the text after it |
| JdFields.GuessSeniority | jd_parser.py:160-164 | the label of the first rule that fires, so `Principal/Lead` beats `Senior`; `""` exactly when no rule fires |
| JdSections.HeaderStart | jd_parser.py:174 | the leftmost position where a section header matches, case-insensitively, or none |
| JdSections.BlockEnd | jd_parser.py:183 | the lazy `.+?` stops at the first blank line, final newline or end of text |
| JdSections.BlockFrom | jd_parser.py:183-187 | a captured block starts with a marker and has at least two characters |
| JdSections.Block | jd_parser.py:183-187 | no block exactly when no line break is followed by a marker with more text after it; otherwise the block runs from the marker after the leftmost such line break to the first terminator after it |
| JdSections.Cleaned | jd_parser.py:194 | removing the marker and its whitespace leaves a stripped string at least two characters shorter |
| JdSections.Items | jd_parser.py:191-196 | no more items than lines, each stripped |
| JdSections.Bullets | jd_parser.py:167-197 | no header or no block gives no items; otherwise item `k` is the cleaned text of the `k`-th stripped block line that starts with a marker and whitespace and has text after it, one item per such line |
| JdSections.ExtractBullets | jd_parser.py:167-197 | the header search, block search and filtering loop compute exactly `Bullets` |
| JdSections.KeepBulletLines | jd_parser.py:191-196 | the filtering loop appends exactly `Items` |
| JdSections.Positions | jd_parser.py:192-196 | the positions satisfying a predicate, increasing, and all of them |
| JdSections.PositionsCover | jd_parser.py:192-196 | every element satisfying the predicate has its position listed |
| JdSections.SourceIndices | jd_parser.py:192-196 | the lines that yield items: a marker, whitespace and some text |
| JdSections.SelectAtPositions | jd_parser.py:191-196 | filtering and mapping in one pass: the `k`-th result is the image of the `k`-th element that passes the filter, and there is one result per such element |
| JdSections.ItemsFromBulletLines | jd_parser.py:191-196 | item `k` is the cleaned text of the `k`-th line that starts with a marker followed by whitespace and has text after it, and there is one item per such line |
| JdSections.NormalizedLines | jd_parser.py:200-206 | one result per line, each stripped, with no upper-case letter after the first character |
| JdSections.StripNoUpper | jd_parser.py:210 | stripping keeps text free of upper-case letters |
| JdSections.NormalizeLines | jd_parser.py:200-206 | the loop computes exactly `NormalizedLines` |
| JdSections.NormalizeLine | jd_parser.py:201-203 | one line normalized and then sentence-cased, as `NormalizedLines` has it |
| Keywords.RunEnd | jd_parser.py:225 | where a run of token characters ends |
| Keywords.TokensFrom | jd_parser.py:225 | every match of `[A-Za-z0-9+#.]{3,}` has at least three characters and, in lower-case text, is a token |
| Keywords.LongRunsSound | jd_parser.py:225 | each listed position starts a maximal run of three or more token characters |
| Keywords.LongRunsIncreasing | jd_parser.py:225 | the listed run starts are in increasing order |
| Keywords.LongRunsComplete | jd_parser.py:225 | every start of a maximal run of three or more token characters is listed |
| Keywords.LongRunsSkip | jd_parser.py:225 | no run starts strictly inside a run of token characters |
| Keywords.RunTextsCons | jd_parser.py:225 | adding a run in front adds its text in front |
| Keywords.TokensFromRuns | jd_parser.py:225 | the k-th match is the whole k-th maximal run of three or more token characters: every such run is returned, in order, once, and nothing else |
| Keywords.TokensAreRuns | jd_parser.py:225 | the tokens are exactly the maximal runs of three or more `[a-z0-9+#.]` characters of the lower-cased text, in order |
| Keywords.Tokens | jd_parser.py:225 | every token of the lower-cased text has three or more characters from `[a-z0-9+#.]` |
| Keywords.Kept | jd_parser.py:227-229 | exactly the tokens that are not in the stopword set, in order |
| Keywords.Distinct | jd_parser.py:230 | the dictionary's keys: each word once, and the same words as the input |
| Keywords.FirstIndex | jd_parser.py:230 | the first occurrence of a word |
| Keywords.FreqItems | jd_parser.py:233 | `freq.items()`: each distinct word with its count, in insertion order |
| Keywords.Firsts | jd_parser.py:233 | the words of the items, in order |
| Keywords.TopOf | jd_parser.py:233 | at most `n` words for `n >= 0`, never more than the distinct words |
| Keywords.Keywords | jd_parser.py:223-233 | at most `n` keywords for `n >= 0` |
| Keywords.TallyStep | jd_parser.py:230 | `freq[w] = freq.get(w, 0) + 1` keeps the table equal to the counts of the tokens seen so far, keys in first-seen order |
| Keywords.TallyCounts | jd_parser.py:230 | the counts of the updated table |
| Keywords.CountFrequencies | jd_parser.py:226-230 | the counting loop leaves a table of the counts of the kept tokens |
| Keywords.KeptPrefix | jd_parser.py:227-229 | one more token read extends the kept list by it unless it is a stopword |
| Keywords.TableItems | jd_parser.py:233 | the table's items are `FreqItems` of the kept tokens |
| Keywords.TopKeywords | jd_parser.py:223-233 | the counting loop, sort and cut compute exactly `Keywords` |
| Keywords.KeptSnoc | jd_parser.py:227-229 | one more token extends the kept list by it unless it is a stopword |
| Keywords.DistinctSnoc | jd_parser.py:230 | a new word is appended to the keys; a known word adds no key |
| Keywords.CountAbsent | jd_parser.py:230 | an absent word has count 0 |
| Keywords.CountSnoc | jd_parser.py:230 | one more token adds one to its own count only |
| Keywords.RankedEntries | jd_parser.py:233 | each ranked entry is a counted word with its count, no word is ranked twice, and every counted word is ranked |
| Keywords.RankedByFirstOccurrence | jd_parser.py:233 | the ranking is by count, and equal counts come in first-occurrence order |
| Keywords.DistinctInFirstOrder | jd_parser.py:230 | the keys come in first-occurrence order |
| Keywords.FirstIndexOfPrefix | jd_parser.py:230 | the first occurrence of a word does not change when tokens are appended |
| Keywords.TopOfLeavesOut | jd_parser.py:233 | a counted word the cut leaves out means `n` words were kept, each at least as frequent as it |
| Keywords.TopOfIsTopN | jd_parser.py:233 | a counted word left out means `n` words were kept, each at least as frequent as it |
| Keywords.KeywordsAreTokens | jd_parser.py:225-229 | every keyword has three or more characters from `[a-z0-9+#.]`, is one of the text's tokens and is not in the stopword set |
| Keywords.KeywordsDistinct | jd_parser.py:233 | no keyword is repeated |
| Keywords.TopOfKeptTokens | jd_parser.py:227-233 | the result's words are distinct, kept words |
| Keywords.KeywordsByFrequency | jd_parser.py:233 | keywords come in non-increasing count, and equal counts in first-occurrence order |
| Keywords.TopOfByFrequency | jd_parser.py:233 | the same for any word list |
| Keywords.KeywordsTopN | jd_parser.py:233 | a counted token that is not a keyword means `n` keywords were kept, each at least as frequent as it |
| JdParser.LexLessIrreflexive | jd_parser.py:104 | no string sorts before itself |
| JdParser.LexLessAsymmetric | jd_parser.py:104 | string order is asymmetric |
| JdParser.LexLessTransitive | jd_parser.py:104 | string order is transitive |
| JdParser.LexLessTotal | jd_parser.py:104 | of two different strings one sorts first |
| JdParser.LeastExists | jd_parser.py:104 | a non-empty set of strings has a least element |
| JdParser.SortedSet | jd_parser.py:104 | `sorted(s)` on a set is strictly ascending, holds exactly the set's elements and has the set's size |
| JdParser.AscendingUnique | jd_parser.py:104 | there is only one strictly ascending list of given elements and length |
| JdParser.SortStrings | jd_parser.py:104 | taking the least remaining element each time yields `SortedSet` |
| JdParser.ParseJdSpec | jd_parser.py:48-106 | the lists are capped at 15, 15 and 30 and are prefixes of the normalized bullets; the skills are strictly ascending, the detected set exactly, each a lowered key; at most `top_kw` keywords; the normalized text has no upper-case letter |
| JdParser.ParseJd | jd_parser.py:48-106 | the steps of `parse_jd` in their order compute exactly `ParseJdSpec` |
| JdParser.NormalizeEmpty | normalize_skills.py:19-32 | the empty text normalizes to itself with nothing detected |
| JdParser.BlankFields | jd_parser.py:74-77 | the four field extractors return `""` on empty text |
| JdParser.BlankLists | jd_parser.py:80-93 | no header and no keyword is found in empty text |
| JdParser.ParseBlank | jd_parser.py:70-106 | blank input gives `""` for every string field and `[]` for every list |
| Retrieval.TagSet | 1.py:189-190 | the lower-cased tags; none when metadata or tags are missing |
| Retrieval.LowerSet | 1.py:205 | every skill's lower-case form is in the set, and nothing in it has an upper-case letter |
| Retrieval.Jaccard | 1.py:191-193 | intersection size over union size, with the union floored at 1, lies in [0, 1] |
| Retrieval.OverlapScore | 1.py:188-193 | the score lies in [0, 1] |
| Retrieval.IntersectionBound | 1.py:191-192 | the intersection is never larger than the union, and equally large only for equal sets |
| Retrieval.JaccardZeroIff | 1.py:191-193 | the similarity is 0 exactly when the sets are disjoint |
| Retrieval.JaccardOneIff | 1.py:191-193 | the similarity is 1 exactly when the sets are equal and non-empty |
| Retrieval.OverlapZeroIff | 1.py:188-193 | the score is 0 exactly when no lower-cased tag is a skill, including when both sides are empty |
| Retrieval.OverlapOneIff | 1.py:188-193 | the score is 1 exactly when the lower-cased tags equal the non-empty skill set |
| Retrieval.LowerSetOfLowerCase | 1.py:205 | lower-casing a lower-case skill set changes nothing |
| Retrieval.OverlapIgnoresTagCase | 1.py:190 | lower-casing the tags beforehand does not change the score |
| Retrieval.BoostedIgnoresSkillCase | 1.py:205 | lower-casing the skills beforehand does not change any candidate's score |
| Retrieval.BaseScore | 1.py:204 | for `d >= 0` the base lies in (0, 1], and is 1 at distance 0 |
| Retrieval.BaseScoreDecreasing | 1.py:204 | a smaller distance gives a strictly larger base |
| Retrieval.Distances | 1.py:202 | missing distances become one `1.0` per document; otherwise the distances are used as given |
| Retrieval.Composite | 1.py:209-210 | for `d >= 0` the composite score lies in (0, 1.25] |
| Retrieval.Boosted | 1.py:207-210 | one candidate per zipped triple: the minimum of the three list lengths |
| Retrieval.DocsOf | 1.py:212 | the documents of the candidates, in order |
| Retrieval.BaseScores | 1.py:204 | the list of base scores, one per distance |
| Retrieval.BoostCandidates | 1.py:202-210 | the defaulting, base scores and boosting loop compute exactly `Boosted` |
| Retrieval.RerankSnippets | 1.py:200-212 | the re-ranking returns exactly `Reranked` |
| Retrieval.Reranked | 1.py:208-212 | at most the zipped count of documents; exactly `min(top_k, count)` for `top_k >= 0` |
| Retrieval.RerankedFromStore | 1.py:208-212 | the kept candidates are a sub-multiset of the boosted ones, and every returned document is a retrieved document |
| Retrieval.BoostedDocs | 1.py:208-210 | every candidate's document is a retrieved document |
| Retrieval.SortedSliceIsTop | 1.py:211-212 | a stable descending sort cut with `[:n]` is sorted, and every element cut off has a key no greater than every element kept |
| Retrieval.RerankedIsTopK | 1.py:211-212 | the kept candidates are in non-increasing score order, and every cut candidate scores no higher than every kept one |
| Retrieval.RerankedStable | 1.py:211 | candidates with equal scores keep retrieval order |
| Retrieval.BoostedScores | 1.py:202-210 | with non-negative distances every score lies in (0, 1.25]; without distances every base is 0.5 |
| Retrieval.OverlapBreaksDistanceTies | 1.py:209-210 | at equal distance, the snippet with the larger overlap scores higher |

## Left out

- Loading the skills map from JSON is file I/O; the map is a parameter. The two loaders also differ on a missing file: `normalize_skills.py:8-9` raises, while `1.py:40-41` and `jd_parser.py:113-118` return an empty map. The model starts from the loaded map.
- The map is an ordered list of `(canonical, synonyms)` pairs, which is the dictionary's iteration order.
- The vector-store query `coll.query(...)` with `n_results=min(50, top_k*2)` is not part of this model; its documents, metadata and distances are inputs.
- The UI, the LLM client, DOCX export, prompt builders, `_hash` and the other modules of the repository are not part of this model.
- Case mapping (`lower`, `upper`, `title`, `re.I`) and the word character `\w` are ASCII only; non-ASCII letters and digits are treated as non-word characters.
- `re.escape` and the replacement template of `re.sub` are not modelled: a canonical name containing a backslash would be read as a template by Python, and is inserted literally here.
- `query_snippets`'s `jd_skills or set()`: a missing skill set is modelled as the empty set.
- Retrieval.BaseScore: requires `d != -1` (Python raises a division by zero there); its range is stated only for `d >= 0`, the store's distances.
- Scores are exact reals; float rounding, and therefore ties that rounding would create or break, is not modelled.
- The in-place `boosted.sort(...)` is modelled as reassigning the sorted sequence; no aliasing is involved.
- The detected-skill set is a mathematical set; `sorted()` on it is specified by `SortedSet`, which is ghost, and implemented by `SortStrings`.
- Text.Strip: its own ensures states the shape of the result; that it is the input with its leading and trailing whitespace cut off is stated by `StripIsSlice`.
- Text.SplitLines: its own ensures states that no line holds a boundary; that the lines and their separators give back the text, with `\r\n` as one separator, is stated by `SplitLinesRejoin`, `LineSepsShape` and `SplitLinesCrLf`.
- Keywords.TokensFrom: its own ensures states only the length and the alphabet of each match; that the matches are exactly the maximal long runs, in order, is stated by `TokensFromRuns`.
- Keywords.Tokens: its own ensures states only that each token is a lower-case token; that the tokens are exactly the long runs of the lower-cased text is stated by `TokensAreRuns`.
- JdParser.ParseJdSpec: states the field extractors' results through their own lemmas (`ExtractTitleCases`, `ExtractTitleFirstLine`, `ExtractTitleBlank`, `ExtractCompanyLabelled`, `ExtractCompanyFallback`, `ExtractLocationLabelled`, `ExtractLocationFallback`, `ExtractLocationLeftmost`, `GuessSeniority`) rather than in its own ensures.
- JdFields.ExtractTitle: its own ensures states only that the title is stripped; which line it comes from is stated by `ExtractTitleCases`, `ExtractTitleFirstLine` and `ExtractTitleBlank`.
- JdFields.ExtractCompany: its own ensures states only that the company is stripped; the label's priority and the `About` fallback are stated by `ExtractCompanyLabelled` and `ExtractCompanyFallback`.
- JdFields.ExtractLocation: its own ensures states only that the location is stripped; the label's priority and the place fallback are stated by `ExtractLocationLabelled`, `ExtractLocationFallback` and `ExtractLocationLeftmost`.
- The `sr.` and `jr.` seniority alternatives end in `.`, so the closing `\b` only holds when a word character follows: `Sr. Engineer` is not recognised as senior, while `Sr.Engineer` is. The model keeps this behaviour, as it keeps `c++` needing a word character after it (`Normalizer.PlusPlusNeedsWordAfter`).
