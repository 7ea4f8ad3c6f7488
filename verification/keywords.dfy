/** `_top_keywords`: tokenize the lower-cased text into runs of at least three
    characters of `[a-z0-9+#.]`, count the tokens that are not stopwords in an
    insertion-ordered table, then sort the table stably by descending count and
    keep the first `n` words. */
module Keywords {
  import opened Text
  import opened Sorting

  /** `_STOPWORDS` */
  const Stopwords: set<string> := {
    "the", "and", "or", "to", "of", "in", "on", "for", "with", "a", "an", "by", "as",
    "is", "are", "be", "will", "this", "that", "we", "you", "our", "your", "at", "from",
    "across", "including", "such", "etc", "about", "into", "within", "over", "under",
    "more", "most", "least", "ability", "experience", "years", "year", "plus", "etc.",
    "responsibilities", "requirements", "preferred", "must", "nice", "have", "skills",
    "role", "job", "description", "position", "candidate", "ideal", "work", "working"
  }

  // ---------------------------------------------------------------------
  // re.findall(r"[A-Za-z0-9\+\#\.]{3,}", s)
  // ---------------------------------------------------------------------

  predicate IsTokenChar(c: char) { IsAsciiLetter(c) || IsDigit(c) || c == '+' || c == '#' || c == '.' }

  /** A keyword candidate: at least three token characters, none upper-case. */
  predicate IsToken(w: string)
  {
    |w| >= 3 && forall m :: 0 <= m < |w| ==> IsTokenChar(w[m]) && !IsUpper(w[m])
  }

  /** The end of the run of token characters starting at `i`. */
  function RunEnd(s: string, i: nat): (e: nat)
    requires i <= |s|
    ensures i <= e <= |s| && (e < |s| ==> !IsTokenChar(s[e]))
    ensures forall k :: i <= k < e ==> IsTokenChar(s[k])
    decreases |s| - i
  {
    if i < |s| && IsTokenChar(s[i]) then RunEnd(s, i + 1) else i
  }

  /** The matches from position `i` on. The greedy `{3,}` takes a whole run; a
      run shorter than three cannot match at any of its positions, so the scan
      resumes after it. */
  function TokensFrom(s: string, i: nat): (r: seq<string>)
    requires i <= |s|
    ensures NoUpper(s) ==> forall k :: 0 <= k < |r| ==> IsToken(r[k])
    ensures forall k :: 0 <= k < |r| ==> |r[k]| >= 3
    decreases |s| - i
  {
    if i == |s| then []
    else if !IsTokenChar(s[i]) then TokensFrom(s, i + 1)
    else
      var e := RunEnd(s, i);
      (if e - i >= 3 then [s[i..e]] else []) + TokensFrom(s, e)
  }

  /** The tokens of the lower-cased text. */
  function Tokens(text: string): (r: seq<string>)
    ensures forall k :: 0 <= k < |r| ==> IsToken(r[k])
  {
    TokensFrom(Lower(text), 0)
  }

  /** A match of `[A-Za-z0-9+#.]{3,}` starts at `j`: a run of token characters
      begins there (the previous character is not one) and is at least three
      long. */
  predicate LongRunAt(s: string, j: nat)
  {
    j < |s| && IsTokenChar(s[j]) && (j == 0 || !IsTokenChar(s[j - 1])) && RunEnd(s, j) - j >= 3
  }

  /** The positions at or after `i` where a long run starts, in increasing
      order (`LongRunsExact`). */
  function LongRuns(s: string, i: nat): seq<nat>
    requires i <= |s|
    decreases |s| - i
  {
    if i == |s| then [] else (if LongRunAt(s, i) then [i] else []) + LongRuns(s, i + 1)
  }

  /** Every position `LongRuns(s, i)` lists is a long-run start at or after `i`. */
  lemma {:induction false} LongRunsSound(s: string, i: nat)
    requires i <= |s|
    ensures forall k :: 0 <= k < |LongRuns(s, i)| ==> i <= LongRuns(s, i)[k] && LongRunAt(s, LongRuns(s, i)[k])
    decreases |s| - i
  {
    if i < |s| {
      LongRunsSound(s, i + 1);
      var r := LongRuns(s, i);
      if LongRunAt(s, i) {
        assert forall k :: 0 < k < |r| ==> r[k] == LongRuns(s, i + 1)[k - 1];
      }
    }
  }

  /** `LongRuns(s, i)` is strictly increasing. */
  lemma {:induction false} LongRunsIncreasing(s: string, i: nat)
    requires i <= |s|
    ensures forall k, m :: 0 <= k < m < |LongRuns(s, i)| ==> LongRuns(s, i)[k] < LongRuns(s, i)[m]
    decreases |s| - i
  {
    if i < |s| {
      LongRunsIncreasing(s, i + 1);
      LongRunsSound(s, i + 1);
      var r := LongRuns(s, i);
      if LongRunAt(s, i) {
        assert forall k :: 0 < k < |r| ==> r[k] == LongRuns(s, i + 1)[k - 1];
      }
    }
  }

  /** Every long-run start at or after `i` is listed. */
  lemma {:induction false} LongRunsComplete(s: string, i: nat)
    requires i <= |s|
    ensures forall j: nat :: i <= j && LongRunAt(s, j) ==> j in LongRuns(s, i)
    decreases |s| - i
  {
    if i < |s| {
      LongRunsComplete(s, i + 1);
    }
  }

  /** No run starts strictly inside a run of token characters. */
  lemma {:induction false} LongRunsSkip(s: string, i: nat, e: nat)
    requires i < e <= |s| && forall k :: i <= k < e ==> IsTokenChar(s[k])
    ensures LongRuns(s, i + 1) == LongRuns(s, e)
    decreases e - i
  {
    if i + 1 < e {
      assert !LongRunAt(s, i + 1);
      LongRunsSkip(s, i + 1, e);
    }
  }

  /** `toks` are the texts of the runs starting at `runs`, one for one. */
  predicate RunTexts(s: string, runs: seq<nat>, toks: seq<string>)
  {
    |toks| == |runs| && forall k :: 0 <= k < |runs| ==> runs[k] <= |s| && toks[k] == s[runs[k]..RunEnd(s, runs[k])]
  }

  lemma RunTextsCons(s: string, j: nat, runs: seq<nat>, toks: seq<string>)
    requires j <= |s| && RunTexts(s, runs, toks)
    ensures RunTexts(s, [j] + runs, [s[j..RunEnd(s, j)]] + toks)
  {
    var runs', toks' := [j] + runs, [s[j..RunEnd(s, j)]] + toks;
    assert forall k :: 0 < k < |runs'| ==> runs'[k] == runs[k - 1] && toks'[k] == toks[k - 1];
  }

  /** Scanning from a position that is not inside a run, the k-th match is the
      whole k-th long run: `findall` returns every maximal run of three or
      more token characters, in order, once each. */
  lemma {:induction false} TokensFromRuns(s: string, i: nat)
    requires i <= |s| && (0 < i < |s| ==> !IsTokenChar(s[i - 1]) || !IsTokenChar(s[i]))
    ensures RunTexts(s, LongRuns(s, i), TokensFrom(s, i))
    decreases |s| - i
  {
    if i < |s| {
      if !IsTokenChar(s[i]) {
        assert !LongRunAt(s, i);
        TokensFromRuns(s, i + 1);
      } else {
        var e := RunEnd(s, i);
        LongRunsSkip(s, i, e);
        TokensFromRuns(s, e);
        if e - i >= 3 {
          assert LongRunAt(s, i);
          RunTextsCons(s, i, LongRuns(s, e), TokensFrom(s, e));
        } else {
          assert !LongRunAt(s, i);
        }
      }
    }
  }

  /** The k-th token of the text is the k-th long run of its lower-cased form. */
  lemma TokensAreRuns(text: string)
    ensures RunTexts(Lower(text), LongRuns(Lower(text), 0), Tokens(text))
  {
    TokensFromRuns(Lower(text), 0);
  }

  // ---------------------------------------------------------------------
  // The counting loop, as functions of the token prefix it has seen
  // ---------------------------------------------------------------------

  /** The tokens the loop does not skip, in order. */
  function Kept(ws: seq<string>, stop: set<string>): (r: seq<string>)
    ensures forall w :: w in r <==> w in ws && w !in stop
    decreases |ws|
  {
    if ws == [] then []
    else
      var n := |ws| - 1;
      assert ws == ws[..n] + [ws[n]];
      Kept(ws[..n], stop) + (if ws[n] in stop then [] else [ws[n]])
  }

  /** How often `w` occurs in `ws`. */
  function Count(ws: seq<string>, w: string): nat
    decreases |ws|
  {
    if ws == [] then 0 else Count(ws[..|ws| - 1], w) + (if ws[|ws| - 1] == w then 1 else 0)
  }

  /** The distinct words of `ws` in order of first occurrence: the key order of
      the insertion-ordered `freq` dictionary. */
  function Distinct(ws: seq<string>): (r: seq<string>)
    ensures forall w :: w in r <==> w in ws
    ensures forall p, q :: 0 <= p < q < |r| ==> r[p] != r[q]
    decreases |ws|
  {
    if ws == [] then []
    else
      var n := |ws| - 1;
      assert ws == ws[..n] + [ws[n]];
      Distinct(ws[..n]) + (if ws[n] in ws[..n] then [] else [ws[n]])
  }

  /** The index of the first occurrence of `w` in `ws`. */
  function FirstIndex(ws: seq<string>, w: string): (r: nat)
    requires w in ws
    ensures r < |ws| && ws[r] == w && forall k :: 0 <= k < r ==> ws[k] != w
    decreases |ws|
  {
    var n := |ws| - 1;
    if w in ws[..n] then
      var r := FirstIndex(ws[..n], w);
      assert ws[..n][r] == ws[r];
      assert forall k :: 0 <= k < r ==> ws[..n][k] == ws[k];
      r
    else
      assert forall k :: 0 <= k < n ==> ws[k] == ws[..n][k];
      n
  }

  /** `freq.items()`: each distinct word with its count, in insertion order. */
  function FreqItems(ws: seq<string>): (r: seq<(string, nat)>)
    ensures |r| == |Distinct(ws)|
    ensures forall k :: 0 <= k < |r| ==> r[k] == (Distinct(ws)[k], Count(ws, Distinct(ws)[k]))
  {
    var d := Distinct(ws);
    seq(|d|, k requires 0 <= k < |d| => (d[k], Count(ws, d[k])))
  }

  /** The sort key `lambda x: -x[1]` of an ascending sort, read as a descending
      sort on the count; both orders are stable. */
  function CountKey(item: (string, nat)): real { item.1 as real }

  function Ranked(ws: seq<string>): seq<(string, nat)>
  {
    SortDesc(FreqItems(ws), CountKey)
  }

  function Firsts(items: seq<(string, nat)>): (r: seq<string>)
    ensures |r| == |items| && forall k :: 0 <= k < |r| ==> r[k] == items[k].0
  {
    seq(|items|, k requires 0 <= k < |items| => items[k].0)
  }

  /** The first `n` words of the ranking of `ws` (a slice, so `n` may be negative). */
  function TopOf(ws: seq<string>, n: int): (r: seq<string>)
    ensures n >= 0 ==> |r| <= n
    ensures |r| <= |Distinct(ws)|
  {
    Firsts(PyPrefix(Ranked(ws), n))
  }

  /** `_top_keywords(text, n)`, where `stop` is `_STOPWORDS` (the parser passes
      `Stopwords`); the properties below hold for any stopword set. */
  function Keywords(text: string, n: int, stop: set<string>): (r: seq<string>)
    ensures n >= 0 ==> |r| <= n
  {
    TopOf(Kept(Tokens(text), stop), n)
  }

  /** The `freq` table after counting `kept`: its keys in insertion order, and
      each key's count. */
  ghost predicate Tallies(order: seq<string>, freq: map<string, nat>, kept: seq<string>)
  {
    order == Distinct(kept)
    && (forall w :: w in freq <==> w in order)
    && (forall w :: w in freq ==> freq[w] == Count(kept, w))
  }

  /** `freq[w] = freq.get(w, 0) + 1` keeps the table in step with the tokens. */
  lemma TallyStep(order: seq<string>, freq: map<string, nat>, kept: seq<string>, w: string)
    requires Tallies(order, freq, kept)
    ensures Tallies(if w in freq then order else order + [w], freq[w := (if w in freq then freq[w] else 0) + 1], kept + [w])
  {
    DistinctSnoc(kept, w);
    TallyCounts(order, freq, kept, w);
  }

  lemma TallyCounts(order: seq<string>, freq: map<string, nat>, kept: seq<string>, w: string)
    requires Tallies(order, freq, kept)
    ensures var freq' := freq[w := (if w in freq then freq[w] else 0) + 1];
      forall x :: x in freq' ==> freq'[x] == Count(kept + [w], x)
  {
    var freq' := freq[w := (if w in freq then freq[w] else 0) + 1];
    forall x | x in freq' ensures freq'[x] == Count(kept + [w], x) {
      CountSnoc(kept, w, x);
      if x == w && w !in freq {
        CountAbsent(kept, w);
      }
    }
  }

  /** The counting loop: the insertion-ordered `freq` table, kept as its key
      order and a map from word to count. */
  method CountFrequencies(words: seq<string>, stop: set<string>) returns (order: seq<string>, freq: map<string, nat>)
    ensures Tallies(order, freq, Kept(words, stop))
  {
    order := [];
    freq := map[];
    for i := 0 to |words|
      invariant Tallies(order, freq, Kept(words[..i], stop))
    {
      var w := words[i];
      KeptPrefix(words, i, stop);
      if w !in stop {
        TallyStep(order, freq, Kept(words[..i], stop), w);
        order, freq := if w in freq then order else order + [w], freq[w := (if w in freq then freq[w] else 0) + 1];
      }
    }
    assert words[..|words|] == words;
  }

  /** One more word of the prefix the loop has read. */
  lemma KeptPrefix(words: seq<string>, i: nat, stop: set<string>)
    requires i < |words|
    ensures words[i] in stop ==> Kept(words[..i + 1], stop) == Kept(words[..i], stop)
    ensures words[i] !in stop ==> Kept(words[..i + 1], stop) == Kept(words[..i], stop) + [words[i]]
  {
    assert words[..i + 1] == words[..i] + [words[i]];
    KeptSnoc(words[..i], words[i], stop);
  }

  /** `freq.items()` read off the table. */
  lemma TableItems(order: seq<string>, freq: map<string, nat>, kept: seq<string>)
    requires Tallies(order, freq, kept)
    ensures seq(|order|, k requires 0 <= k < |order| => (order[k], freq[order[k]])) == FreqItems(kept)
  {
  }

  /** `_top_keywords`: count, then sort by descending count and cut. */
  method TopKeywords(text: string, n: int, stop: set<string>) returns (r: seq<string>)
    ensures r == Keywords(text, n, stop)
  {
    var words := Tokens(text);
    var order, freq := CountFrequencies(words, stop);
    var items := seq(|order|, k requires 0 <= k < |order| => (order[k], freq[order[k]]));
    TableItems(order, freq, Kept(words, stop));
    r := Firsts(PyPrefix(SortDesc(items, CountKey), n));
  }

  lemma KeptSnoc(ws: seq<string>, w: string, stop: set<string>)
    ensures Kept(ws + [w], stop) == Kept(ws, stop) + (if w in stop then [] else [w])
  {
    assert (ws + [w])[..|ws|] == ws;
  }

  lemma DistinctSnoc(ws: seq<string>, w: string)
    ensures Distinct(ws + [w]) == Distinct(ws) + (if w in ws then [] else [w])
  {
    assert (ws + [w])[..|ws|] == ws;
  }

  lemma {:induction false} CountAbsent(ws: seq<string>, w: string)
    requires w !in ws
    ensures Count(ws, w) == 0
    decreases |ws|
  {
    if ws != [] {
      CountAbsent(ws[..|ws| - 1], w);
    }
  }

  lemma CountSnoc(ws: seq<string>, w: string, x: string)
    ensures Count(ws + [w], x) == Count(ws, x) + (if w == x then 1 else 0)
  {
    assert (ws + [w])[..|ws|] == ws;
  }

  // ---------------------------------------------------------------------
  // What the ranking satisfies
  // ---------------------------------------------------------------------

  /** Each ranked entry is a counted word with its count, no word is ranked
      twice, and every counted word is ranked. */
  lemma RankedEntries(ws: seq<string>)
    ensures forall j :: 0 <= j < |Ranked(ws)| ==> Ranked(ws)[j].0 in ws && Ranked(ws)[j].1 == Count(ws, Ranked(ws)[j].0)
    ensures forall p, q :: 0 <= p < q < |Ranked(ws)| ==> Ranked(ws)[p].0 != Ranked(ws)[q].0
    ensures forall w :: w in ws ==> exists j :: 0 <= j < |Ranked(ws)| && Ranked(ws)[j].0 == w
  {
    var items := FreqItems(ws);
    var s := Ranked(ws);
    var d := Distinct(ws);
    forall j | 0 <= j < |s| ensures s[j].0 in ws && s[j].1 == Count(ws, s[j].0) {
      assert s[j] in multiset(items);
      var k :| 0 <= k < |items| && items[k] == s[j];
      assert d[k] in d;
    }
    var first := (item: (string, nat)) => item.0;
    assert Injective(items, first);
    SortDescInjective(items, CountKey, first);
    forall w | w in ws ensures exists j :: 0 <= j < |s| && s[j].0 == w {
      var k :| 0 <= k < |d| && d[k] == w;
      assert items[k] in multiset(s);
      var j :| 0 <= j < |s| && s[j] == items[k];
    }
  }

  /** The ranking orders by count, and equal counts by first occurrence. */
  lemma RankedByFirstOccurrence(ws: seq<string>)
    ensures forall p, q :: 0 <= p < q < |Ranked(ws)| ==> (Ranked(ws)[p].0 in ws && Ranked(ws)[q].0 in ws
      && (Ranked(ws)[p].1 > Ranked(ws)[q].1
          || (Ranked(ws)[p].1 == Ranked(ws)[q].1 && FirstIndex(ws, Ranked(ws)[p].0) < FirstIndex(ws, Ranked(ws)[q].0))))
  {
    var items := FreqItems(ws);
    var rank := (item: (string, nat)) => if item.0 in ws then FirstIndex(ws, item.0) else 0;
    DistinctInFirstOrder(ws);
    assert RankIncreasing(items, rank) by {
      forall p, q | 0 <= p < q < |items| ensures rank(items[p]) < rank(items[q]) {
        assert items[p].0 == Distinct(ws)[p] && items[q].0 == Distinct(ws)[q];
        assert Distinct(ws)[p] in Distinct(ws) && Distinct(ws)[q] in Distinct(ws);
      }
    }
    SortDescThenRank(items, CountKey, rank);
    RankedEntries(ws);
  }

  /** The order of `Distinct` is the order of first occurrence. */
  lemma {:induction false} DistinctInFirstOrder(ws: seq<string>)
    ensures forall p, q :: 0 <= p < q < |Distinct(ws)| ==> FirstIndex(ws, Distinct(ws)[p]) < FirstIndex(ws, Distinct(ws)[q])
    decreases |ws|
  {
    if ws != [] {
      var n := |ws| - 1;
      var init := ws[..n];
      DistinctInFirstOrder(init);
      var d := Distinct(ws);
      var di := Distinct(init);
      forall x | x in init ensures FirstIndex(ws, x) == FirstIndex(init, x) {
        FirstIndexOfPrefix(ws, n, x);
      }
      forall p, q | 0 <= p < q < |d| ensures FirstIndex(ws, d[p]) < FirstIndex(ws, d[q]) {
        assert d[p] == di[p] && di[p] in di;
        if q < |di| {
          assert d[q] == di[q] && di[q] in di;
        } else {
          assert d[q] == ws[n] && ws[n] !in init;
          assert FirstIndex(ws, d[q]) == n;
        }
      }
    }
  }

  lemma FirstIndexOfPrefix(ws: seq<string>, n: nat, x: string)
    requires n <= |ws| && x in ws[..n]
    ensures FirstIndex(ws, x) == FirstIndex(ws[..n], x)
  {
    var b := FirstIndex(ws[..n], x);
    assert ws[b] == x;
    assert forall k :: 0 <= k < b ==> ws[k] == ws[..n][k];
  }

  /** The cut keeps the most frequent words: a counted word that is left out
      occurs no more often than any word that made it, and words are only left
      out when all `n` places are taken. */
  lemma TopOfIsTopN(ws: seq<string>, n: int)
    requires n >= 0
    ensures var r := TopOf(ws, n);
      forall w :: w in ws && w !in r ==>
        |r| == n && forall k :: 0 <= k < |r| ==> Count(ws, r[k]) >= Count(ws, w)
  {
    forall w | w in ws && w !in TopOf(ws, n)
      ensures |TopOf(ws, n)| == n && forall k :: 0 <= k < |TopOf(ws, n)| ==> Count(ws, TopOf(ws, n)[k]) >= Count(ws, w)
    {
      TopOfLeavesOut(ws, n, w);
    }
  }

  /** One word left out by the cut. */
  lemma TopOfLeavesOut(ws: seq<string>, n: int, w: string)
    requires n >= 0 && w in ws && w !in TopOf(ws, n)
    ensures var r := TopOf(ws, n);
      |r| == n && forall k :: 0 <= k < |r| ==> Count(ws, r[k]) >= Count(ws, w)
  {
    RankedEntries(ws);
    var s := Ranked(ws);
    var r := TopOf(ws, n);
    assert |r| <= |s| && forall k :: 0 <= k < |r| ==> r[k] == s[k].0;
    var j :| 0 <= j < |s| && s[j].0 == w;
    if j < |r| {
      assert false;
    }
    forall k | 0 <= k < |r| ensures Count(ws, r[k]) >= Count(ws, w) {
      assert CountKey(s[k]) >= CountKey(s[j]);
    }
  }

  // ---------------------------------------------------------------------
  // What the keywords satisfy
  // ---------------------------------------------------------------------

  /** Keywords are tokens of the lower-cased text (at least three characters
      of `[a-z0-9+#.]`) and never stopwords. */
  lemma KeywordsAreTokens(text: string, n: int, stop: set<string>)
    ensures var r := Keywords(text, n, stop);
      forall k :: 0 <= k < |r| ==> IsToken(r[k]) && r[k] !in stop && r[k] in Tokens(text)
  {
    var ws := Tokens(text);
    TopOfKeptTokens(ws, stop, n);
    var r := Keywords(text, n, stop);
    assert r == TopOf(Kept(ws, stop), n);
    forall k | 0 <= k < |r| ensures IsToken(r[k]) {
      var m :| 0 <= m < |ws| && ws[m] == r[k];
    }
  }

  /** No keyword is repeated. */
  lemma KeywordsDistinct(text: string, n: int, stop: set<string>)
    ensures var r := Keywords(text, n, stop);
      forall p, q :: 0 <= p < q < |r| ==> r[p] != r[q]
  {
    TopOfKeptTokens(Tokens(text), stop, n);
    assert Keywords(text, n, stop) == TopOf(Kept(Tokens(text), stop), n);
  }

  lemma TopOfKeptTokens(ws: seq<string>, stop: set<string>, n: int)
    ensures var r := TopOf(Kept(ws, stop), n);
      forall k :: 0 <= k < |r| ==> r[k] in ws && r[k] !in stop
    ensures var r := TopOf(Kept(ws, stop), n);
      forall p, q :: 0 <= p < q < |r| ==> r[p] != r[q]
  {
    var kept := Kept(ws, stop);
    RankedEntries(kept);
    var s := Ranked(kept);
    var r := TopOf(kept, n);
    assert |r| <= |s| && forall k :: 0 <= k < |r| ==> r[k] == s[k].0;
  }

  /** Every word of `r` occurs in `ws`; the words of `r` come in non-increasing
      count in `ws`, and words with equal counts in order of first occurrence. */
  predicate ByFrequency(r: seq<string>, ws: seq<string>)
  {
    forall p, q :: 0 <= p < q < |r| ==> (r[p] in ws && r[q] in ws
      && (Count(ws, r[p]) > Count(ws, r[q])
          || (Count(ws, r[p]) == Count(ws, r[q]) && FirstIndex(ws, r[p]) < FirstIndex(ws, r[q]))))
  }

  /** Keywords come in non-increasing count, and words with equal counts in
      order of their first occurrence among the counted tokens. */
  lemma KeywordsByFrequency(text: string, n: int, stop: set<string>)
    ensures ByFrequency(Keywords(text, n, stop), Kept(Tokens(text), stop))
  {
    var kept := Kept(Tokens(text), stop);
    assert Keywords(text, n, stop) == TopOf(kept, n);
    TopOfByFrequency(kept, n);
  }

  lemma TopOfByFrequency(ws: seq<string>, n: int)
    ensures ByFrequency(TopOf(ws, n), ws)
  {
    RankedEntries(ws);
    RankedByFirstOccurrence(ws);
    var s := Ranked(ws);
    var r := TopOf(ws, n);
    assert |r| <= |s| && forall k :: 0 <= k < |r| ==> r[k] == s[k].0;
  }

  /** The keywords are the most frequent counted tokens. */
  lemma KeywordsTopN(text: string, n: int, stop: set<string>)
    requires n >= 0
    ensures var kept := Kept(Tokens(text), stop); var r := Keywords(text, n, stop);
      forall w :: w in kept && w !in r ==>
        |r| == n && forall k :: 0 <= k < |r| ==> Count(kept, r[k]) >= Count(kept, w)
  {
    TopOfIsTopN(Kept(Tokens(text), stop), n);
  }
}
