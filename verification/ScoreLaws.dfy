/** What a score is, written out, and what that means for the order of results (src/bm25.cpp). */
module ScoreLaws {
  import opened Bytes
  import opened IndexModel
  import opened Bm25

  // ----- The formulas -----

  lemma QuotientTimes(x: real, y: real)
    requires y != 0.0
    ensures x / y * y == x
  {
  }

  /** The term-frequency factor is `f * (k1 + 1) / (f + k1 * (1 - b + b * dl / avgdl))`. */
  lemma TfEquation(r: Ranker, f: nat, dl: nat, avgdl: real)
    requires avgdl > 0.0 && f as real + r.k1 * (1.0 - r.b + r.b * dl as real / avgdl) != 0.0
    ensures Tf(r, f, dl, avgdl) * (f as real + r.k1 * (1.0 - r.b + r.b * dl as real / avgdl))
         == f as real * (r.k1 + 1.0)
  {
    hide Saturated;
    SaturatedEquation(f as real, r.k1 + 1.0, LengthNorm(r, dl, avgdl));
  }

  lemma SaturatedEquation(x: real, k: real, c: real)
    requires x + c != 0.0
    ensures Saturated(x, k, c) * (x + c) == x * k
  {
    QuotientTimes(x * k, x + c);
  }

  /** The idf of a term in `n` of `N` documents is the logarithm of `(N + 1) / (n + 0.5)`. */
  lemma IdfEquation(ln: real -> real, N: nat, n: nat)
    ensures Idf(ln, N, n) == ln((N as real + 1.0) / (n as real + 0.5))
  {
    var d := n as real + 0.5;
    SplitQuotient(N as real - n as real + 0.5, d);
    assert N as real - n as real + 0.5 + d == N as real + 1.0;
  }

  lemma SplitQuotient(x: real, d: real)
    requires d > 0.0
    ensures 1.0 + x / d == (x + d) / d
  {
    var p, q := 1.0 + x / d, (x + d) / d;
    QuotientTimes(x, d);
    QuotientTimes(x + d, d);
    assert p * d == x / d * d + d;
    CancelAtMost(p, q, d);
    CancelAtMost(q, p, d);
  }

  /** The average length times the number of documents is the total length. */
  lemma AverageEquation(ix: Index)
    ensures ix.AverageDocLength() * |ix.store.docs| as real ==
            if ix.store.docs == map[] then 0.0 else ix.totalTerms as real
  {
    if ix.store.docs != map[] {
      QuotientTimes(ix.totalTerms as real, |ix.store.docs| as real);
    }
  }

  lemma MoveFactor(s: real, i: real, t: real, d: real, y: real)
    requires s == i * t && t * d == y
    ensures s * d == i * y
  {
    assert i * t * d == i * (t * d);
  }

  /**
    The score of a document for one term: `f` is the term's weight in it, `dl` the document's length, `n` the number
    of documents with the term out of `N`, and `avgdl` the average length.
    */
  ghost predicate IsFormula(r: Ranker, ln: real -> real, f: nat, dl: nat, N: nat, n: nat, avgdl: real, score: real)
    requires avgdl > 0.0
  {
    var denominator := f as real + r.k1 * (1.0 - r.b + r.b * dl as real / avgdl);
    denominator != 0.0 ==>
      score * denominator == ln((N as real + 1.0) / (n as real + 0.5)) * (f as real * (r.k1 + 1.0))
  }

  /** Every document with the term has the score of the formula. */
  lemma OneTermScore(r: Ranker, ln: real -> real, ix: Index, term: bytes, id: nat)
    requires ix.Valid() && id in ix.store.docs && TermBag(ix.store.docs[id])[term] > 0
    ensures ix.AverageDocLength() > 0.0
    ensures IsFormula(r, ln, TermBag(ix.store.docs[id])[term], |TermBag(ix.store.docs[id])|, |ix.store.docs|,
                      |Lookup(ix.postings, term)|, ix.AverageDocLength(), Score(r, ln, ix, {term}, id))
  {
    hide IsFormula, Index.Valid, TermBag, Idf, Tf, Score, Index.AverageDocLength, Lookup, Matching;
    OneTermContribution(r, ln, ix, term, id);
    FormulaOf(r, ln, TermBag(ix.store.docs[id])[term], |TermBag(ix.store.docs[id])|, |ix.store.docs|,
              |Lookup(ix.postings, term)|, ix.AverageDocLength(), Score(r, ln, ix, {term}, id));
  }

  lemma FormulaOf(r: Ranker, ln: real -> real, f: nat, dl: nat, N: nat, n: nat, avgdl: real, score: real)
    requires avgdl > 0.0 && score == Idf(ln, N, n) * Tf(r, f, dl, avgdl)
    ensures IsFormula(r, ln, f, dl, N, n, avgdl, score)
  {
    hide Idf, Tf;
    IdfEquation(ln, N, n);
    var d := f as real + r.k1 * (1.0 - r.b + r.b * dl as real / avgdl);
    if d != 0.0 {
      TfEquation(r, f, dl, avgdl);
      MoveFactor(score, Idf(ln, N, n), Tf(r, f, dl, avgdl), d, f as real * (r.k1 + 1.0));
    }
  }

  lemma ScoreOfOne(r: Ranker, ln: real -> real, ix: Index, term: bytes, id: nat)
    requires ix.Valid()
    ensures Score(r, ln, ix, {term}, id) == Contribution(r, ln, ix, term, id)
  {
    hide Index.Valid, Contribution;
    ScoreSplit(r, ln, ix, {term}, term, id);
    assert {term} - {term} == {};
  }

  // ----- What the parameters do -----

  lemma ProductGrows(a: real, b: real, p: real)
    requires a < b && p > 0.0
    ensures a * p < b * p
  {
    assert (b - a) * p > 0.0;
  }

  lemma GrownProduct(p: real, a: real, b: real)
    requires a < b && p > 0.0
    ensures p * a < p * b
  {
    ProductGrows(a, b, p);
  }

  lemma QuotientGrows(a: real, b: real, p: real)
    requires a < b && p > 0.0
    ensures a / p < b / p
  {
    var x, y := a / p, b / p;
    assert x * p == a && y * p == b;
    CancelLess(x, y, p);
  }

  lemma GreaterDenominator(x: real, k: real, c: real, c': real)
    requires x > 0.0 && k > 0.0 && 0.0 <= c < c'
    ensures Saturated(x, k, c) > Saturated(x, k, c')
  {
    var y := x * k;
    assert y > 0.0;
    RatioDecreasesInDenominator(y, x + c, x + c');
  }

  lemma RatioDecreasesInDenominator(y: real, d: real, d': real)
    requires y > 0.0 && 0.0 < d < d'
    ensures y / d > y / d'
  {
    var p, q := y / d, y / d';
    assert p * d == y && q * d' == y;
    PositiveQuotient(y, d');
    ProductGrows(d, d', q);
    assert q * d < p * d;
    CancelLess(q, p, d);
  }

  /** At equal frequency the longer document has the smaller factor, once `k1` and `b` are positive. */
  lemma LongerWeighsLess(r: Ranker, f: nat, dl: nat, dl': nat, avgdl: real)
    requires r.Valid() && r.k1 > 0.0 && r.b > 0.0 && avgdl > 0.0 && f > 0 && dl < dl'
    ensures Tf(r, f, dl, avgdl) > Tf(r, f, dl', avgdl)
  {
    hide Saturated, LengthNorm;
    LengthNormIsNonNegative(r, dl, avgdl);
    NormGrows(r, dl, dl', avgdl);
    GreaterDenominator(f as real, r.k1 + 1.0, LengthNorm(r, dl, avgdl), LengthNorm(r, dl', avgdl));
  }

  lemma NormGrows(r: Ranker, dl: nat, dl': nat, avgdl: real)
    requires r.k1 > 0.0 && r.b > 0.0 && avgdl > 0.0 && dl < dl'
    ensures LengthNorm(r, dl, avgdl) < LengthNorm(r, dl', avgdl)
  {
    hide LengthNorm;
    var q, q' := r.b * dl as real / avgdl, r.b * dl' as real / avgdl;
    GrownProduct(r.b, dl as real, dl' as real);
    QuotientGrows(r.b * dl as real, r.b * dl' as real, avgdl);
    NormIs(r, dl, avgdl, q);
    NormIs(r, dl', avgdl, q');
    GrownProduct(r.k1, 1.0 - r.b + q, 1.0 - r.b + q');
  }

  /** With `b` zero the length makes no difference. */
  lemma LengthIgnored(r: Ranker, f: nat, dl: nat, dl': nat, avgdl: real)
    requires r.b == 0.0 && avgdl > 0.0
    ensures Tf(r, f, dl, avgdl) == Tf(r, f, dl', avgdl)
  {
    assert r.b * dl as real / avgdl == 0.0 == r.b * dl' as real / avgdl;
  }

  /** At equal length a higher frequency weighs strictly more, once `k1` and the norm of the document are positive. */
  lemma MoreWeighsMore(r: Ranker, f: nat, g: nat, dl: nat, avgdl: real)
    requires r.Valid() && r.k1 > 0.0 && avgdl > 0.0 && 0 < f < g && dl > 0
    ensures Tf(r, f, dl, avgdl) < Tf(r, g, dl, avgdl)
  {
    NormIsPositive(r, dl, avgdl);
    SaturatedGrowsStrictly(f as real, g as real, r.k1 + 1.0, LengthNorm(r, dl, avgdl));
  }

  lemma PositiveProduct(a: real, b: real)
    requires a > 0.0 && b > 0.0
    ensures a * b > 0.0
  {
  }

  lemma NormIsPositive(r: Ranker, dl: nat, avgdl: real)
    requires r.Valid() && r.k1 > 0.0 && avgdl > 0.0 && dl > 0
    ensures LengthNorm(r, dl, avgdl) > 0.0
  {
    hide LengthNorm;
    var q := r.b * dl as real / avgdl;
    NonNegativeShare(r.b, dl as real, avgdl);
    NormIs(r, dl, avgdl, q);
    PositiveProduct(r.k1, 1.0 - r.b + q);
  }

  lemma NormIs(r: Ranker, dl: nat, avgdl: real, q: real)
    requires avgdl > 0.0 && q == r.b * dl as real / avgdl
    ensures LengthNorm(r, dl, avgdl) == r.k1 * (1.0 - r.b + q)
  {
  }

  lemma NonNegativeShare(b: real, d: real, p: real)
    requires b >= 0.0 && d > 0.0 && p > 0.0
    ensures b * d / p >= 0.0 && (b > 0.0 ==> b * d / p > 0.0)
  {
    if b > 0.0 {
      PositiveProduct(b, d);
      PositiveQuotient(b * d, p);
    } else {
      NonNegativeProduct(b, d);
    }
  }

  lemma SaturatedGrowsStrictly(x: real, y: real, k: real, c: real)
    requires 0.0 < x < y && k > 0.0 && c > 0.0
    ensures Saturated(x, k, c) < Saturated(y, k, c)
  {
    var p, q := x * k / (x + c), y * k / (y + c);
    assert p * (x + c) == x * k && q * (y + c) == y * k;
    var d, e := x + c, y + c;
    assert p * (d * e) == x * k * e && q * (d * e) == y * k * d;
    assert x * k * e - y * k * d == x * (k * c) - y * (k * c);
    assert k * c > 0.0;
    ProductGrows(x, y, k * c);
    assert d * e > 0.0;
    CancelLess(p, q, d * e);
  }

  // ----- What that means for the results -----

  /** Of two matches the one with the higher score stands first, or with equal scores the one with the lower id. */
  lemma HigherStandsFirst(
    results: seq<ScoredDocument>, matching: map<nat, real>, docs: map<nat, Document>, limit: nat, x: nat, y: nat)
    requires IsTop(results, matching, docs, limit)
    requires forall id | id in matching :: id in docs && docs[id].id == id
    requires x in matching && y in matching
    requires matching[x] > matching[y] || (matching[x] == matching[y] && x < y)
    ensures Includes(results, y) ==> StandsBefore(results, x, y)
  {
    if Includes(results, y) {
      var j :| 0 <= j < |results| && results[j].doc.id == y;
      assert results[j].score == matching[y];
      assert Includes(results, x);
      var i :| 0 <= i < |results| && results[i].doc.id == x;
      assert results[i].score == matching[x];
      assert i < j;
    }
  }

  ghost predicate StandsBefore(results: seq<ScoredDocument>, x: nat, y: nat) {
    exists i, j :: 0 <= i < j < |results| && results[i].doc.id == x && results[j].doc.id == y
  }

  lemma MatchesOneTerm(ix: Index, term: bytes, id: nat)
    requires id in ix.store.docs && TermBag(ix.store.docs[id])[term] > 0
    ensures Matches(ix, {term}, id)
  {
    hide TermBag;
  }

  /** A stored document matches when it has at least one of the terms. */
  lemma WhoMatches(r: Ranker, ln: real -> real, ix: Index, terms: set<bytes>, id: nat)
    requires ix.Valid()
    ensures id in Matching(r, ln, ix, terms) <==>
            id in ix.store.docs && exists term :: term in terms && term in TermBag(ix.store.docs[id])
  {
    hide Index.Valid, TermBag, Score;
    if id in ix.store.docs {
      if term :| term in terms && term in TermBag(ix.store.docs[id]) {
        assert TermBag(ix.store.docs[id])[term] > 0;
      }
    }
  }

  /** The score for several terms is the sum of the scores for each. */
  lemma ScoreAdds(r: Ranker, ln: real -> real, ix: Index, terms: set<bytes>, term: bytes, id: nat)
    requires ix.Valid() && term !in terms
    ensures Score(r, ln, ix, terms + {term}, id) == Score(r, ln, ix, terms, id) + Score(r, ln, ix, {term}, id)
  {
    hide Index.Valid, Contribution;
    ScoreSplit(r, ln, ix, terms + {term}, term, id);
    ScoreOfOne(r, ln, ix, term, id);
    assert terms + {term} - {term} == terms;
  }

  /**
    In the results of a one-term query, of two documents with the term equally often the shorter one stands before
    the longer one, and is there whenever the longer one is.
    */
  lemma ShorterStandsFirst(
    r: Ranker, ln: real -> real, ix: Index, term: bytes, limit: nat, results: seq<ScoredDocument>, x: nat, y: nat)
    requires ix.Valid() && r.Valid() && r.k1 > 0.0 && r.b > 0.0 && IsLog(ln)
    requires IsTop(results, Matching(r, ln, ix, {term}), ix.store.docs, limit)
    requires x in ix.store.docs && y in ix.store.docs
    requires TermBag(ix.store.docs[x])[term] == TermBag(ix.store.docs[y])[term] > 0
    requires |TermBag(ix.store.docs[x])| < |TermBag(ix.store.docs[y])|
    ensures Includes(results, y) ==> StandsBefore(results, x, y)
  {
    hide Index.Valid, TermBag, Tf, Idf, IsTop, IsLog, Matches, Index.AverageDocLength, Lookup, StandsBefore;
    var f, N, n := TermBag(ix.store.docs[x])[term], |ix.store.docs|, |Lookup(ix.postings, term)|;
    OneTermContribution(r, ln, ix, term, x);
    OneTermContribution(r, ln, ix, term, y);
    FrequencyBounded(ix, term);
    IdfIsPositive(ln, N, n);
    LongerWeighsLess(r, f, |TermBag(ix.store.docs[x])|, |TermBag(ix.store.docs[y])|, ix.AverageDocLength());
    MoreTimes(Idf(ln, N, n), Tf(r, f, |TermBag(ix.store.docs[y])|, ix.AverageDocLength()),
              Tf(r, f, |TermBag(ix.store.docs[x])|, ix.AverageDocLength()));
    MatchesAreStored(r, ln, ix, {term});
    HigherStandsFirst(results, Matching(r, ln, ix, {term}), ix.store.docs, limit, x, y);
  }

  lemma MoreTimes(i: real, a: real, b: real)
    requires i > 0.0 && a < b
    ensures i * a < i * b
  {
    ProductGrows(a, b, i);
  }

  lemma OneTermContribution(r: Ranker, ln: real -> real, ix: Index, term: bytes, id: nat)
    requires ix.Valid() && id in ix.store.docs && TermBag(ix.store.docs[id])[term] > 0
    ensures ix.AverageDocLength() > 0.0 && id in Matching(r, ln, ix, {term})
    ensures Matching(r, ln, ix, {term})[id] == Score(r, ln, ix, {term}, id) ==
            Idf(ln, |ix.store.docs|, |Lookup(ix.postings, term)|)
            * Tf(r, TermBag(ix.store.docs[id])[term], |TermBag(ix.store.docs[id])|, ix.AverageDocLength())
  {
    hide Index.Valid, TermBag, Idf, Tf, Score, Index.AverageDocLength, Lookup, Matches;
    AverageIsPositive(ix, id, term);
    LengthOf(ix, id);
    ScoreOfOne(r, ln, ix, term, id);
    MatchesOneTerm(ix, term, id);
  }

  /** In the results of a one-term query, of two equally long documents the one with more of the term stands first. */
  lemma MoreFrequentStandsFirst(
    r: Ranker, ln: real -> real, ix: Index, term: bytes, limit: nat, results: seq<ScoredDocument>, x: nat, y: nat)
    requires ix.Valid() && r.Valid() && r.k1 > 0.0 && IsLog(ln)
    requires IsTop(results, Matching(r, ln, ix, {term}), ix.store.docs, limit)
    requires x in ix.store.docs && y in ix.store.docs
    requires TermBag(ix.store.docs[x])[term] > TermBag(ix.store.docs[y])[term] > 0
    requires |TermBag(ix.store.docs[x])| == |TermBag(ix.store.docs[y])|
    ensures Includes(results, y) ==> StandsBefore(results, x, y)
  {
    hide Index.Valid, TermBag, Tf, Idf, IsTop, IsLog, Matches, Index.AverageDocLength, Lookup, StandsBefore;
    var N, n, dl := |ix.store.docs|, |Lookup(ix.postings, term)|, |TermBag(ix.store.docs[x])|;
    var f, g := TermBag(ix.store.docs[x])[term], TermBag(ix.store.docs[y])[term];
    OneTermContribution(r, ln, ix, term, x);
    OneTermContribution(r, ln, ix, term, y);
    FrequencyBounded(ix, term);
    IdfIsPositive(ln, N, n);
    CountAtMostSize(TermBag(ix.store.docs[x]), term);
    MoreWeighsMore(r, g, f, dl, ix.AverageDocLength());
    MoreTimes(Idf(ln, N, n), Tf(r, g, dl, ix.AverageDocLength()), Tf(r, f, dl, ix.AverageDocLength()));
    MatchesAreStored(r, ln, ix, {term});
    HigherStandsFirst(results, Matching(r, ln, ix, {term}), ix.store.docs, limit, x, y);
  }
}
