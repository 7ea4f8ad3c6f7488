/** The re-ranking step of snippet retrieval: `_overlap_score` (Jaccard
    similarity between a snippet's tags and the job's skills) and the body of
    `query_snippets` after the vector-store query, which turns distances into
    base scores, adds a quarter of the overlap, sorts by the sum (stable,
    descending) and keeps the first `top_k` documents. */
module Retrieval {
  import opened Text
  import opened Sorting

  /** The `tags` list of a snippet's metadata; `None` when the metadata is
      missing or has no `tags` entry (both read as an empty list). */
  type Tags = Option<seq<string>>

  /** `{t.lower() for t in set(tags)}` */
  function TagSet(meta: Tags): (r: set<string>)
    ensures meta.None? ==> r == {}
    ensures meta.Some? ==> forall t :: t in r <==> exists u :: u in meta.value && Lower(u) == t
  {
    if meta.None? then {} else set u | u in meta.value :: Lower(u)
  }

  /** `{s.lower() for s in (jd_skills or set())}` */
  function LowerSet(skills: set<string>): (r: set<string>)
    ensures forall u :: u in skills ==> Lower(u) in r
    ensures forall t :: t in r ==> NoUpper(t)
  {
    set u | u in skills :: Lower(u)
  }

  // ---------------------------------------------------------------------
  // _overlap_score
  // ---------------------------------------------------------------------

  /** `len(a & b) / (len(a | b) or 1)`: the Jaccard similarity of two sets. */
  function Jaccard(a: set<string>, b: set<string>): (r: real)
    ensures 0.0 <= r <= 1.0
  {
    var union := if |a + b| == 0 then 1 else |a + b|;
    IntersectionBound(a, b);
    RatioInUnit(|a * b|, union);
    |a * b| as real / union as real
  }

  lemma RatioInUnit(i: nat, u: nat)
    requires 0 < u && i <= u
    ensures 0.0 <= i as real / u as real <= 1.0
  {
    var q := i as real / u as real;
    assert q * u as real == i as real;
    assert (1.0 - q) * u as real == (u - i) as real;
  }

  /** `_overlap_score(snippet_meta, jd_skills)` */
  function OverlapScore(meta: Tags, jdSkills: set<string>): (r: real)
    ensures 0.0 <= r <= 1.0
  {
    Jaccard(TagSet(meta), jdSkills)
  }

  /** The intersection is never larger than the union, and the two have the
      same size only when the sets are equal. */
  lemma IntersectionBound(a: set<string>, b: set<string>)
    ensures |a * b| <= |a + b|
    ensures |a * b| == |a + b| ==> a == b
  {
    assert (a + b) - (a * b) == (a - b) + (b - a);
    assert (a * b) <= (a + b);
    assert |(a + b) - (a * b)| == |a + b| - |a * b|;
    if |a * b| == |a + b| {
      assert (a - b) + (b - a) == {};
      assert a - b == {} && b - a == {};
    }
  }

  lemma JaccardZeroIff(a: set<string>, b: set<string>)
    ensures Jaccard(a, b) == 0.0 <==> a * b == {}
  {
    if a * b != {} {
      assert |a * b| > 0;
      IntersectionBound(a, b);
    }
  }

  lemma JaccardOneIff(a: set<string>, b: set<string>)
    ensures Jaccard(a, b) == 1.0 <==> a == b && b != {}
  {
    IntersectionBound(a, b);
    var i, u := |a * b|, if |a + b| == 0 then 1 else |a + b|;
    assert Jaccard(a, b) * u as real == i as real;
    if a == b && b != {} {
      assert a * b == a + b;
    }
    if Jaccard(a, b) == 1.0 {
      assert i == u;
    }
  }

  /** The score is 0 exactly when no tag is one of the skills. */
  lemma OverlapZeroIff(meta: Tags, jdSkills: set<string>)
    ensures OverlapScore(meta, jdSkills) == 0.0 <==> TagSet(meta) * jdSkills == {}
  {
    JaccardZeroIff(TagSet(meta), jdSkills);
  }

  /** The score is 1 exactly when the lower-cased tags and the skills are the
      same non-empty set. */
  lemma OverlapOneIff(meta: Tags, jdSkills: set<string>)
    ensures OverlapScore(meta, jdSkills) == 1.0 <==> TagSet(meta) == jdSkills && jdSkills != {}
  {
    JaccardOneIff(TagSet(meta), jdSkills);
  }

  /** A set with no upper-case letters in it is its own `LowerSet`. */
  lemma LowerSetOfLowerCase(skills: set<string>)
    requires forall t :: t in skills ==> NoUpper(t)
    ensures LowerSet(skills) == skills
  {
    forall t | t in skills ensures t in LowerSet(skills) {
      LowerOfLowered(t);
    }
    forall t | t in LowerSet(skills) ensures t in skills {
      var u :| u in skills && Lower(u) == t;
      LowerOfLowered(u);
    }
  }

  /** Tags are compared after lower-casing: re-casing them does not change the score. */
  lemma OverlapIgnoresTagCase(tags: seq<string>, jdSkills: set<string>)
    ensures OverlapScore(Some(tags), jdSkills) == OverlapScore(Some(seq(|tags|, k requires 0 <= k < |tags| => Lower(tags[k]))), jdSkills)
  {
    var lowered := seq(|tags|, k requires 0 <= k < |tags| => Lower(tags[k]));
    forall t ensures t in TagSet(Some(tags)) <==> t in TagSet(Some(lowered)) {
      if t in TagSet(Some(tags)) {
        var u :| u in tags && Lower(u) == t;
        var k :| 0 <= k < |tags| && tags[k] == u;
        LowerOfLowered(Lower(u));
        assert lowered[k] == t && Lower(lowered[k]) == t;
      }
      if t in TagSet(Some(lowered)) {
        var u :| u in lowered && Lower(u) == t;
        var k :| 0 <= k < |lowered| && lowered[k] == u;
        LowerOfLowered(u);
        assert Lower(tags[k]) == t;
      }
    }
    assert TagSet(Some(tags)) == TagSet(Some(lowered));
  }

  // ---------------------------------------------------------------------
  // Base scores from distances
  // ---------------------------------------------------------------------

  /** `1.0 / (1.0 + d)`; a distance of -1 would divide by zero. */
  function BaseScore(d: real): (r: real)
    requires d != -1.0
    ensures d >= 0.0 ==> 0.0 < r <= 1.0
    ensures d == 0.0 ==> r == 1.0
  {
    1.0 / (1.0 + d)
  }

  /** A nearer snippet has a strictly higher base score. */
  lemma BaseScoreDecreasing(d1: real, d2: real)
    requires 0.0 <= d1 < d2
    ensures BaseScore(d1) > BaseScore(d2)
  {
    var a, b := 1.0 + d1, 1.0 + d2;
    var x, y := BaseScore(d1), BaseScore(d2);
    assert x * a == 1.0 && y * b == 1.0;
    assert y * a < y * b;
    assert y * a < x * a;
  }

  /** The distances the store returned, or `[1.0] * len(docs)` when it returned none. */
  function Distances(docs: seq<string>, dists: seq<real>): (r: seq<real>)
    ensures dists != [] ==> r == dists
    ensures dists == [] ==> |r| == |docs| && forall k :: 0 <= k < |r| ==> r[k] == 1.0
  {
    if dists == [] then seq(|docs|, _ => 1.0) else dists
  }

  predicate NoMinusOne(dists: seq<real>) { forall k :: 0 <= k < |dists| ==> dists[k] != -1.0 }

  predicate NonNegative(dists: seq<real>) { forall k :: 0 <= k < |dists| ==> dists[k] >= 0.0 }

  // ---------------------------------------------------------------------
  // Boosting, sorting, truncating
  // ---------------------------------------------------------------------

  /** One `(doc, meta, score)` tuple of `boosted`. */
  datatype Candidate = Candidate(doc: string, meta: Tags, score: real)

  function Score(c: Candidate): real { c.score }

  /** How many tuples `zip(docs, metas, base_scores)` yields. */
  function ZipLength(docs: seq<string>, metas: seq<Tags>, dists: seq<real>): nat
  {
    Min(Min(|docs|, |metas|), |Distances(docs, dists)|)
  }

  /** The composite score of one snippet. */
  function Composite(d: real, meta: Tags, skills: set<string>): (r: real)
    requires d != -1.0
    ensures d >= 0.0 ==> 0.0 < r <= 1.25
  {
    BaseScore(d) + 0.25 * OverlapScore(meta, skills)
  }

  /** The `boosted` list before sorting, one candidate per zipped triple. */
  function Boosted(docs: seq<string>, metas: seq<Tags>, dists: seq<real>, jdSkills: set<string>): (r: seq<Candidate>)
    requires NoMinusOne(dists)
    ensures |r| == ZipLength(docs, metas, dists)
  {
    var ds := Distances(docs, dists);
    var skills := LowerSet(jdSkills);
    seq(ZipLength(docs, metas, dists), k requires 0 <= k < ZipLength(docs, metas, dists) =>
      Candidate(docs[k], metas[k], Composite(ds[k], metas[k], skills)))
  }

  /** `boosted` after the stable descending sort, cut to `top_k`. */
  function Kept(docs: seq<string>, metas: seq<Tags>, dists: seq<real>, jdSkills: set<string>, topK: int): (r: seq<Candidate>)
    requires NoMinusOne(dists)
  {
    PyPrefix(SortDesc(Boosted(docs, metas, dists, jdSkills), Score), topK)
  }

  function DocsOf(cs: seq<Candidate>): (r: seq<string>)
    ensures |r| == |cs| && forall k :: 0 <= k < |r| ==> r[k] == cs[k].doc
  {
    seq(|cs|, k requires 0 <= k < |cs| => cs[k].doc)
  }

  /** The documents `query_snippets` returns for what the store gave back: at
      most `top_k` of them, never more than the zipped triples, and exactly
      that many when there are enough. */
  function Reranked(docs: seq<string>, metas: seq<Tags>, dists: seq<real>, jdSkills: set<string>, topK: int): (r: seq<string>)
    requires NoMinusOne(dists)
    ensures |r| <= ZipLength(docs, metas, dists)
    ensures topK >= 0 ==> |r| == Min(topK, ZipLength(docs, metas, dists))
  {
    DocsOf(Kept(docs, metas, dists, jdSkills, topK))
  }

  /** The re-ranking part of `query_snippets`: the loop over the zipped
      triples, the in-place sort and the final slice. */
  method RerankSnippets(docs: seq<string>, metas: seq<Tags>, dists: seq<real>, jdSkills: set<string>, topK: int)
    returns (r: seq<string>)
    requires NoMinusOne(dists)
    ensures r == Reranked(docs, metas, dists, jdSkills, topK)
  {
    var boosted := BoostCandidates(docs, metas, dists, jdSkills);
    boosted := SortDesc(boosted, Score);
    r := DocsOf(PyPrefix(boosted, topK));
  }

  /** `dists or [1.0] * len(docs)`, the base scores, and the loop that builds `boosted`. */
  method BoostCandidates(docs: seq<string>, metas: seq<Tags>, dists: seq<real>, jdSkills: set<string>)
    returns (boosted: seq<Candidate>)
    requires NoMinusOne(dists)
    ensures boosted == Boosted(docs, metas, dists, jdSkills)
  {
    var ds := Distances(docs, dists);
    var baseScores := BaseScores(ds);
    var skills := LowerSet(jdSkills);
    var n := Min(Min(|docs|, |metas|), |baseScores|);
    ghost var spec := Boosted(docs, metas, dists, jdSkills);
    boosted := [];
    for k := 0 to n
      invariant |boosted| == k
      invariant forall j :: 0 <= j < k ==> boosted[j] == spec[j]
    {
      var bonus := OverlapScore(metas[k], skills);
      boosted := boosted + [Candidate(docs[k], metas[k], baseScores[k] + 0.25 * bonus)];
    }
  }

  /** `[1.0 / (1.0 + d) for d in dists]` */
  method BaseScores(ds: seq<real>) returns (scores: seq<real>)
    requires NoMinusOne(ds)
    ensures |scores| == |ds| && forall k :: 0 <= k < |ds| ==> scores[k] == BaseScore(ds[k])
  {
    scores := [];
    for k := 0 to |ds|
      invariant |scores| == k
      invariant forall j :: 0 <= j < k ==> scores[j] == BaseScore(ds[j])
    {
      scores := scores + [1.0 / (1.0 + ds[k])];
    }
  }

  // ---------------------------------------------------------------------
  // Properties of the ranking
  // ---------------------------------------------------------------------

  /** Every returned document is one of the store's documents, and no
      document is returned more often than the store listed it. */
  lemma RerankedFromStore(docs: seq<string>, metas: seq<Tags>, dists: seq<real>, jdSkills: set<string>, topK: int)
    requires NoMinusOne(dists)
    ensures multiset(Kept(docs, metas, dists, jdSkills, topK)) <= multiset(Boosted(docs, metas, dists, jdSkills))
    ensures forall d :: d in Reranked(docs, metas, dists, jdSkills, topK) ==> d in docs
  {
    var b := Boosted(docs, metas, dists, jdSkills);
    var s := SortDesc(b, Score);
    var kept := Kept(docs, metas, dists, jdSkills, topK);
    assert s == kept + s[|kept|..];
    assert multiset(s) == multiset(kept) + multiset(s[|kept|..]);
    BoostedDocs(docs, metas, dists, jdSkills);
    forall d | d in Reranked(docs, metas, dists, jdSkills, topK) ensures d in docs {
      var k :| 0 <= k < |kept| && kept[k].doc == d;
      assert kept[k] in multiset(b);
    }
  }

  lemma BoostedDocs(docs: seq<string>, metas: seq<Tags>, dists: seq<real>, jdSkills: set<string>)
    requires NoMinusOne(dists)
    ensures forall c :: c in Boosted(docs, metas, dists, jdSkills) ==> c.doc in docs
  {
    var b := Boosted(docs, metas, dists, jdSkills);
    forall c | c in b ensures c.doc in docs {
      var j :| 0 <= j < |b| && b[j] == c;
      assert c.doc == docs[j];
    }
  }

  /** The kept candidates come in non-increasing score order, and every
      candidate that was cut scores no higher than every kept one. */
  lemma RerankedIsTopK(docs: seq<string>, metas: seq<Tags>, dists: seq<real>, jdSkills: set<string>, topK: int)
    requires NoMinusOne(dists)
    ensures var kept := Kept(docs, metas, dists, jdSkills, topK);
      SortedDesc(kept, Score)
      && forall c :: c in multiset(Boosted(docs, metas, dists, jdSkills)) - multiset(kept) ==>
           forall k :: 0 <= k < |kept| ==> c.score <= kept[k].score
  {
    SortedSliceIsTop(Boosted(docs, metas, dists, jdSkills), Score, topK);
  }

  /** `sorted(xs, key, reverse=True)[:n]` holds the highest keys, in order. */
  lemma SortedSliceIsTop<T>(xs: seq<T>, key: T -> real, n: int)
    ensures var kept := PyPrefix(SortDesc(xs, key), n);
      SortedDesc(kept, key)
      && forall c :: c in multiset(xs) - multiset(kept) ==>
           forall k :: 0 <= k < |kept| ==> key(c) <= key(kept[k])
  {
    var s := SortDesc(xs, key);
    var kept := PyPrefix(s, n);
    var m := |kept|;
    assert kept == s[..m];
    SortedPrefixIsTop(s, key, m);
    assert multiset(xs) - multiset(kept) == multiset(s[m..]);
  }

  /** The sort is stable: candidates with equal scores keep the store's order. */
  lemma RerankedStable(docs: seq<string>, metas: seq<Tags>, dists: seq<real>, jdSkills: set<string>, v: real)
    requires NoMinusOne(dists)
    ensures WithKey(SortDesc(Boosted(docs, metas, dists, jdSkills), Score), Score, v)
         == WithKey(Boosted(docs, metas, dists, jdSkills), Score, v)
  {
    SortDescStable(Boosted(docs, metas, dists, jdSkills), Score, v);
  }

  /** With real distances every composite score lies in (0, 1.25]; without
      distances the base is 0.5 for every snippet. */
  lemma BoostedScores(docs: seq<string>, metas: seq<Tags>, dists: seq<real>, jdSkills: set<string>)
    requires NoMinusOne(dists)
    ensures NonNegative(dists) ==>
      forall c :: c in Boosted(docs, metas, dists, jdSkills) ==> 0.0 < c.score <= 1.25
    ensures dists == [] ==> forall k :: 0 <= k < |Boosted(docs, metas, dists, jdSkills)| ==>
      Boosted(docs, metas, dists, jdSkills)[k].score == 0.5 + 0.25 * OverlapScore(metas[k], LowerSet(jdSkills))
  {
    var b := Boosted(docs, metas, dists, jdSkills);
    var ds := Distances(docs, dists);
    if NonNegative(dists) {
      forall c | c in b ensures 0.0 < c.score <= 1.25 {
        var k :| 0 <= k < |b| && b[k] == c;
        assert ds[k] >= 0.0;
      }
    }
    if dists == [] {
      forall k | 0 <= k < |b| ensures b[k].score == 0.5 + 0.25 * OverlapScore(metas[k], LowerSet(jdSkills)) {
        assert ds[k] == 1.0 && BaseScore(1.0) == 0.5;
      }
    }
  }

  /** Between two snippets at the same distance, the one whose tags overlap the
      skills more is ranked first. */
  lemma OverlapBreaksDistanceTies(docs: seq<string>, metas: seq<Tags>, dists: seq<real>, jdSkills: set<string>, i: nat, j: nat)
    requires NoMinusOne(dists)
    requires i < ZipLength(docs, metas, dists) && j < ZipLength(docs, metas, dists)
    requires Distances(docs, dists)[i] == Distances(docs, dists)[j]
    requires OverlapScore(metas[i], LowerSet(jdSkills)) > OverlapScore(metas[j], LowerSet(jdSkills))
    ensures Boosted(docs, metas, dists, jdSkills)[i].score > Boosted(docs, metas, dists, jdSkills)[j].score
  {
  }

  /** The skills are lower-cased before comparison: handing over an already
      lower-cased set gives the same candidates. */
  lemma BoostedIgnoresSkillCase(docs: seq<string>, metas: seq<Tags>, dists: seq<real>, jdSkills: set<string>)
    requires NoMinusOne(dists)
    ensures Boosted(docs, metas, dists, LowerSet(jdSkills)) == Boosted(docs, metas, dists, jdSkills)
  {
    LowerSetOfLowerCase(LowerSet(jdSkills));
  }
}
