/**
  The BM25 ranking of src/bm25.cpp over real numbers: floating-point rounding is not modelled, and the
  logarithm is any increasing function that is 0 at 1.
  */
module Bm25 {
  import opened Bytes
  import opened TermWeights
  import opened IndexModel
  import opened InvertedIndex

  datatype Ranker = Ranker(k1: real, b: real)
  {
    ghost predicate Valid() {
      k1 >= 0.0 && 0.0 <= b <= 1.0
    }
  }

  ghost predicate IsLog(ln: real -> real) {
    ln(1.0) == 0.0 && forall x, y | 1.0 <= x < y :: ln(x) < ln(y)
  }

  /** `log(1 + (N - n + 0.5) / (n + 0.5))` for a term that `n` of `N` documents contain. */
  function Idf(ln: real -> real, N: nat, n: nat): real {
    ln(1.0 + (N as real - n as real + 0.5) / (n as real + 0.5))
  }

  lemma NonNegativeProduct(x: real, y: real)
    requires x >= 0.0 && y >= 0.0
    ensures x * y >= 0.0
  {
  }

  lemma ProductMonotone(p: real, q: real, c: real)
    requires p <= q && c >= 0.0
    ensures p * c <= q * c
  {
  }

  lemma CancelLess(p: real, q: real, c: real)
    requires c > 0.0 && p * c < q * c
    ensures p < q
  {
    if q <= p {
      ProductMonotone(q, p, c);
    }
  }

  lemma CancelAtMost(p: real, q: real, c: real)
    requires c > 0.0 && p * c <= q * c
    ensures p <= q
  {
  }

  lemma PositiveQuotient(x: real, y: real)
    requires x > 0.0 && y > 0.0
    ensures x / y > 0.0
  {
  }

  /** The part of a denominator that depends on the length of the document. */
  function LengthNorm(r: Ranker, dl: nat, avgdl: real): real
    requires avgdl > 0.0
  {
    r.k1 * (1.0 - r.b + r.b * dl as real / avgdl)
  }

  lemma LengthNormIsNonNegative(r: Ranker, dl: nat, avgdl: real)
    requires r.Valid() && avgdl > 0.0
    ensures LengthNorm(r, dl, avgdl) >= 0.0
  {
    NonNegativeProduct(r.b, dl as real);
    NonNegativeProduct(r.k1, 1.0 - r.b + r.b * dl as real / avgdl);
  }

  /** A fraction; 0 stands for the infinity or NaN that a zero denominator gives in floating point. */
  function Saturated(x: real, k: real, c: real): real {
    if x + c == 0.0 then 0.0 else x * k / (x + c)
  }

  function Tf(r: Ranker, freq: nat, dl: nat, avgdl: real): real
    requires avgdl > 0.0
  {
    Saturated(freq as real, r.k1 + 1.0, LengthNorm(r, dl, avgdl))
  }

  // ----- Bounds -----

  /** A posting list no longer than the number of documents makes every idf positive. */
  lemma IdfIsPositive(ln: real -> real, N: nat, n: nat)
    requires IsLog(ln) && n <= N
    ensures Idf(ln, N, n) > 0.0
  {
    var q := (N as real - n as real + 0.5) / (n as real + 0.5);
    PositiveQuotient(N as real - n as real + 0.5, n as real + 0.5);
    assert ln(1.0) < ln(1.0 + q);
  }

  lemma RatioDecreases(x: real, y: real, x': real, y': real)
    requires 0.0 < x' < x && 0.0 < y < y'
    ensures x / y > x' / y'
  {
    var p, q := x' / y', x / y;
    assert p * y' == x' && q * y == x;
    PositiveQuotient(x', y');
    ProductMonotone(y, y', p);
    CancelLess(p, q, y);
  }

  /** The rarer the term, the more it weighs. */
  lemma RarerWeighsMore(ln: real -> real, N: nat, m: nat, n: nat)
    requires IsLog(ln) && m < n <= N
    ensures Idf(ln, N, m) > Idf(ln, N, n)
  {
    RatioDecreases(N as real - m as real + 0.5, m as real + 0.5, N as real - n as real + 0.5, n as real + 0.5);
    PositiveQuotient(N as real - n as real + 0.5, n as real + 0.5);
  }

  lemma SaturatedBounds(x: real, k: real, c: real)
    requires x > 0.0 && c >= 0.0 && k > 0.0
    ensures 0.0 < Saturated(x, k, c) <= k
  {
    var q := Saturated(x, k, c);
    assert q * (x + c) == x * k;
    ProductMonotone(x, x + c, k);
    CancelAtMost(q, k, x + c);
    PositiveQuotient(x * k, x + c);
  }

  lemma SaturatedGrows(x: real, y: real, k: real, c: real)
    requires 0.0 < x <= y && k >= 0.0 && c >= 0.0
    ensures Saturated(x, k, c) <= Saturated(y, k, c)
  {
    var p, q := x / (x + c), y / (y + c);
    assert p * (x + c) == x && q * (y + c) == y;
    assert p * ((x + c) * (y + c)) == x * (y + c);
    assert q * ((x + c) * (y + c)) == y * (x + c);
    ProductMonotone(x, y, c);
    assert (x + c) * (y + c) > 0.0;
    CancelAtMost(p, q, (x + c) * (y + c));
    ProductMonotone(p, q, k);
    assert Saturated(x, k, c) == x * k / (x + c) == p * k && Saturated(y, k, c) == y * k / (y + c) == q * k;
  }

  /** The term-frequency factor is positive and saturates at `k1 + 1`. */
  lemma TfBounds(r: Ranker, freq: nat, dl: nat, avgdl: real)
    requires r.Valid() && avgdl > 0.0 && freq > 0
    ensures 0.0 < Tf(r, freq, dl, avgdl) <= r.k1 + 1.0
  {
    LengthNormIsNonNegative(r, dl, avgdl);
    SaturatedBounds(freq as real, r.k1 + 1.0, LengthNorm(r, dl, avgdl));
  }

  /** At equal length, more occurrences never score less. */
  lemma TfGrowsWithFrequency(r: Ranker, f: nat, g: nat, dl: nat, avgdl: real)
    requires r.Valid() && avgdl > 0.0 && 0 < f <= g
    ensures Tf(r, f, dl, avgdl) <= Tf(r, g, dl, avgdl)
  {
    hide LengthNorm, Saturated;
    LengthNormIsNonNegative(r, dl, avgdl);
    SaturatedGrows(f as real, g as real, r.k1 + 1.0, LengthNorm(r, dl, avgdl));
  }

  // ----- Scores -----

  ghost function WeightIn(ix: Index, id: nat, term: bytes): nat {
    if id in ix.store.docs then TermBag(ix.store.docs[id])[term] else 0
  }

  /** A document with any term at all makes the average length positive. */
  lemma AverageIsPositive(ix: Index, id: nat, term: bytes)
    requires ix.Valid() && WeightIn(ix, id, term) > 0
    ensures ix.AverageDocLength() > 0.0
  {
    hide TermBag, Index.Valid;
    var docs := ix.store.docs;
    LengthOf(ix, id);
    TotalSplit(ix.docLengths, id);
    CountAtMostSize(TermBag(docs[id]), term);
    CardinalityMinus(docs, id);
    PositiveQuotient(ix.totalTerms as real, |docs| as real);
  }

  lemma CountAtMostSize(bag: Bag, term: bytes)
    ensures bag[term] <= |bag|
  {
    assert |bag[term := 0]| == |bag| - bag[term];
  }

  lemma LengthOf(ix: Index, id: nat)
    requires ix.Valid() && id in ix.store.docs
    ensures id in ix.docLengths && ix.docLengths[id] == |TermBag(ix.store.docs[id])|
    ensures ix.totalTerms == Total(ix.docLengths)
  {
    hide TermBag, PostingsMatch, TermsMatch, Store.Valid;
  }

  /** What one query term adds to one document's score. */
  ghost function Contribution(r: Ranker, ln: real -> real, ix: Index, term: bytes, id: nat): real
    requires ix.Valid()
  {
    var freq := WeightIn(ix, id, term);
    if freq == 0 then 0.0
    else
      AverageIsPositive(ix, id, term);
      Idf(ln, |ix.store.docs|, |Lookup(ix.postings, term)|)
      * Tf(r, freq, ix.DocLength(id), ix.AverageDocLength())
  }

  /** No posting has a zero denominator, so the arithmetic of every score is defined. */
  ghost predicate NoZeroDenominator(r: Ranker, ix: Index) {
    forall term, id | WeightIn(ix, id, term) > 0 && ix.AverageDocLength() > 0.0 ::
      WeightIn(ix, id, term) as real + LengthNorm(r, ix.DocLength(id), ix.AverageDocLength()) != 0.0
  }

  /** With `k1` not negative and `b` between 0 and 1 there is none in any index. */
  lemma DenominatorsArePositive(r: Ranker, ix: Index)
    requires r.Valid()
    ensures NoZeroDenominator(r, ix)
  {
    forall term, id | WeightIn(ix, id, term) > 0 && ix.AverageDocLength() > 0.0
      ensures WeightIn(ix, id, term) as real + LengthNorm(r, ix.DocLength(id), ix.AverageDocLength()) > 0.0
    {
      LengthNormIsNonNegative(r, ix.DocLength(id), ix.AverageDocLength());
    }
  }

  /** A document's score for a set of query terms: the sum of what each adds. */
  ghost function Score(r: Ranker, ln: real -> real, ix: Index, terms: set<bytes>, id: nat): real
    requires ix.Valid()
  {
    if terms == {} then 0.0
    else
      var term :| term in terms;
      Contribution(r, ln, ix, term, id) + Score(r, ln, ix, terms - {term}, id)
  }

  lemma {:induction false} ScoreSplit(r: Ranker, ln: real -> real, ix: Index, terms: set<bytes>, term: bytes, id: nat)
    requires ix.Valid() && term in terms
    ensures Score(r, ln, ix, terms, id)
         == Contribution(r, ln, ix, term, id) + Score(r, ln, ix, terms - {term}, id)
    decreases |terms|
  {
    hide Contribution, Index.Valid;
    var t :| t in terms
             && Score(r, ln, ix, terms, id) == Contribution(r, ln, ix, t, id) + Score(r, ln, ix, terms - {t}, id);
    if t != term {
      assert terms - {t} - {term} == terms - {term} - {t};
      ScoreSplit(r, ln, ix, terms - {t}, term, id);
      ScoreSplit(r, ln, ix, terms - {term}, t, id);
    }
  }

  ghost predicate Matches(ix: Index, terms: set<bytes>, id: nat) {
    id in ix.store.docs && exists term :: term in terms && term in TermBag(ix.store.docs[id])
  }

  /** The documents with at least one query term, with their scores. */
  ghost function Matching(r: Ranker, ln: real -> real, ix: Index, terms: set<bytes>): map<nat, real>
    requires ix.Valid()
  {
    map id | id in ix.store.docs && Matches(ix, terms, id) :: Score(r, ln, ix, terms, id)
  }

  /** The idf of a query term the document contains; 0 for any other term. */
  ghost function IdfIn(ln: real -> real, ix: Index, term: bytes, id: nat): real {
    if WeightIn(ix, id, term) == 0 then 0.0 else Idf(ln, |ix.store.docs|, |Lookup(ix.postings, term)|)
  }

  /** The idfs of the query terms a document contains. */
  ghost function IdfSum(ln: real -> real, ix: Index, terms: set<bytes>, id: nat): real {
    if terms == {} then 0.0
    else
      var term :| term in terms;
      IdfIn(ln, ix, term, id) + IdfSum(ln, ix, terms - {term}, id)
  }

  lemma ContributionBounds(r: Ranker, ln: real -> real, ix: Index, term: bytes, id: nat)
    requires r.Valid() && ix.Valid() && IsLog(ln)
    ensures 0.0 <= Contribution(r, ln, ix, term, id) <= (r.k1 + 1.0) * IdfIn(ln, ix, term, id)
    ensures WeightIn(ix, id, term) > 0 ==> Contribution(r, ln, ix, term, id) > 0.0
  {
    hide TermBag, Index.Valid, IsLog, Idf, Tf;
    if WeightIn(ix, id, term) > 0 {
      AverageIsPositive(ix, id, term);
      FrequencyBounded(ix, term);
      var N, n, freq := |ix.store.docs|, |Lookup(ix.postings, term)|, WeightIn(ix, id, term);
      var idf, tf := Idf(ln, N, n), Tf(r, freq, ix.DocLength(id), ix.AverageDocLength());
      IdfIsPositive(ln, N, n);
      TfBounds(r, freq, ix.DocLength(id), ix.AverageDocLength());
      assert Contribution(r, ln, ix, term, id) == idf * tf;
      ScaledProduct(idf, tf, r.k1 + 1.0);
    }
  }

  lemma ScaledProduct(x: real, t: real, k: real)
    requires x > 0.0 && 0.0 < t <= k
    ensures 0.0 < x * t <= k * x
  {
  }

  lemma AddBounds(k: real, a: real, b: real, x: real, y: real, sum: real)
    requires a <= k * x && b <= k * y && sum == x + y
    ensures a + b <= k * sum
  {
    assert k * (x + y) == k * x + k * y;
  }

  /**
    In a valid index every returned score is positive and at most `k1 + 1` times the summed idfs of the
    query terms the document has.
    */
  lemma {:induction false} ScoreBounds(r: Ranker, ln: real -> real, ix: Index, terms: set<bytes>, id: nat)
    requires r.Valid() && ix.Valid() && IsLog(ln)
    ensures 0.0 <= Score(r, ln, ix, terms, id) <= (r.k1 + 1.0) * IdfSum(ln, ix, terms, id)
    ensures Matches(ix, terms, id) ==> Score(r, ln, ix, terms, id) > 0.0
    decreases |terms|
  {
    hide Index.Valid, IsLog, IdfIn, Contribution, TermBag, Matches, Score, IdfSum;
    if terms == {} {
      NoTerms(r, ln, ix, id);
    } else {
      var term := SomeIdf(ln, ix, terms, id);
      var rest := terms - {term};
      ScoreSplit(r, ln, ix, terms, term, id);
      ContributionBounds(r, ln, ix, term, id);
      ScoreBounds(r, ln, ix, rest, id);
      AddBounds(r.k1 + 1.0, Contribution(r, ln, ix, term, id), Score(r, ln, ix, rest, id),
                IdfIn(ln, ix, term, id), IdfSum(ln, ix, rest, id), IdfSum(ln, ix, terms, id));
      MatchesSplit(ix, rest, term, id);
      assert rest + {term} == terms;
    }
  }

  lemma NoTerms(r: Ranker, ln: real -> real, ix: Index, id: nat)
    requires ix.Valid()
    ensures Score(r, ln, ix, {}, id) == 0.0 == IdfSum(ln, ix, {}, id)
    ensures !Matches(ix, {}, id)
  {
  }

  lemma SomeIdf(ln: real -> real, ix: Index, terms: set<bytes>, id: nat) returns (term: bytes)
    requires terms != {}
    ensures term in terms
    ensures IdfSum(ln, ix, terms, id) == IdfIn(ln, ix, term, id) + IdfSum(ln, ix, terms - {term}, id)
  {
    hide IdfIn;
    term :| term in terms
            && IdfSum(ln, ix, terms, id) == IdfIn(ln, ix, term, id) + IdfSum(ln, ix, terms - {term}, id);
  }

  // ----- The best of the matching documents -----

  datatype ScoredDocument = ScoredDocument(doc: Document, score: real)

  /** The result order: higher score first, ties by lower id. */
  predicate RanksBefore(a: ScoredDocument, b: ScoredDocument) {
    if a.score != b.score then a.score > b.score else a.doc.id < b.doc.id
  }

  ghost predicate Ranked(results: seq<ScoredDocument>) {
    forall i, j | 0 <= i < j < |results| :: RanksBefore(results[i], results[j])
  }

  ghost predicate Includes(results: seq<ScoredDocument>, id: nat) {
    exists i :: 0 <= i < |results| && results[i].doc.id == id
  }

  /** Every result is a match with its score and its stored document. */
  ghost predicate AreMatches(results: seq<ScoredDocument>, matching: map<nat, real>, docs: map<nat, Document>) {
    forall i | 0 <= i < |results| ::
      var id := results[i].doc.id;
      id in matching && id in docs && results[i] == ScoredDocument(docs[id], matching[id])
  }

  /** The `limit` best matches in order: as many as there are, and nothing left out ranks ahead. */
  ghost predicate IsTop(results: seq<ScoredDocument>, matching: map<nat, real>, docs: map<nat, Document>, limit: nat) {
    && |results| == (if |matching| < limit then |matching| else limit)
    && AreMatches(results, matching, docs)
    && Ranked(results)
    && forall id, i | id in matching && id in docs && !Includes(results, id) && 0 <= i < |results| ::
         RanksBefore(results[i], ScoredDocument(docs[id], matching[id]))
  }

  /** There is only one such list: the order of the query cannot matter. */
  lemma {:induction false} TopIsUnique(
    a: seq<ScoredDocument>, b: seq<ScoredDocument>, matching: map<nat, real>, docs: map<nat, Document>, limit: nat)
    requires IsTop(a, matching, docs, limit) && IsTop(b, matching, docs, limit)
    ensures a == b
  {
    for n := 0 to |a|
      invariant a[..n] == b[..n]
    {
      assert a[n] == b[n] by {
        NextIsSame(a, b, matching, docs, limit, n);
      }
      assert a[..n + 1] == a[..n] + [a[n]] && b[..n + 1] == b[..n] + [b[n]];
    }
    assert a == a[..|a|] && b == b[..|a|];
  }

  lemma NextIsSame(
    a: seq<ScoredDocument>, b: seq<ScoredDocument>, matching: map<nat, real>, docs: map<nat, Document>,
    limit: nat, n: nat)
    requires IsTop(a, matching, docs, limit) && IsTop(b, matching, docs, limit)
    requires n < |a| && a[..n] == b[..n]
    ensures a[n] == b[n]
  {
    NextIsNoEarlier(a, b, matching, docs, limit, n);
    NextIsNoEarlier(b, a, matching, docs, limit, n);
  }

  lemma NextIsNoEarlier(
    a: seq<ScoredDocument>, b: seq<ScoredDocument>, matching: map<nat, real>, docs: map<nat, Document>,
    limit: nat, n: nat)
    requires IsTop(a, matching, docs, limit) && IsTop(b, matching, docs, limit)
    requires n < |a| == |b| && a[..n] == b[..n]
    ensures b[n] == a[n] || RanksBefore(b[n], a[n])
  {
    var id := a[n].doc.id;
    if Includes(b, id) {
      var j :| 0 <= j < |b| && b[j].doc.id == id;
      assert b[j] == a[n];
      assert j < n ==> a[..n][j] == b[..n][j];
      assert j < n ==> RanksBefore(a[j], a[n]);
    }
  }

  // ----- The ranking method -----

  /** The order of strings: byte by byte, a proper prefix first. */
  predicate Before(a: bytes, b: bytes) {
    b != [] && (a == [] || a[0] < b[0] || (a[0] == b[0] && Before(a[1..], b[1..])))
  }

  lemma {:induction false} BeforeIsTotal(a: bytes, b: bytes)
    ensures !Before(a, a)
    ensures a != b ==> Before(a, b) || Before(b, a)
  {
    if a != [] && b != [] {
      BeforeIsTotal(a[1..], b[1..]);
      assert a == [a[0]] + a[1..] && b == [b[0]] + b[1..];
    } else if a != [] {
      BeforeIsTotal(a[1..], b);
    }
  }

  /** The strings agree before `k`, and there the first one ends or has the smaller byte. */
  predicate FirstDifference(a: bytes, b: bytes, k: nat) {
    k <= |a| && k < |b| && a[..k] == b[..k] && (k == |a| || a[k] < b[k])
  }

  lemma LaterDifference(a: bytes, b: bytes, k: nat)
    requires a != [] && b != []
    ensures a[0] == b[0] ==> (FirstDifference(a, b, k + 1) <==> FirstDifference(a[1..], b[1..], k))
    ensures a[0] == b[0] ==> !FirstDifference(a, b, 0)
    ensures a[0] != b[0] ==> !FirstDifference(a, b, k + 1)
  {
    if k + 1 <= |a| && k + 1 < |b| {
      assert a[..k + 1] == [a[0]] + a[1..][..k] && b[..k + 1] == [b[0]] + b[1..][..k];
      assert a[1..][..k] == a[..k + 1][1..] && b[1..][..k] == b[..k + 1][1..];
    }
  }

  /** The order of strings is that of the first byte in which they differ, the end of a string coming first. */
  lemma {:induction false} BeforeIsLexicographic(a: bytes, b: bytes)
    ensures Before(a, b) <==> exists k: nat :: FirstDifference(a, b, k)
  {
    if a == [] || b == [] {
      assert b != [] ==> FirstDifference(a, b, 0);
    } else {
      forall k: nat {
        LaterDifference(a, b, k);
      }
      hide FirstDifference;
      if a[0] == b[0] {
        BeforeIsLexicographic(a[1..], b[1..]);
        if k: nat :| FirstDifference(a, b, k) {
          assert FirstDifference(a[1..], b[1..], k - 1);
        }
        if k: nat :| FirstDifference(a[1..], b[1..], k) {
          assert FirstDifference(a, b, k + 1);
        }
      } else {
        FirstByteDecides(a, b);
        forall k: nat | k > 0
          ensures !FirstDifference(a, b, k)
        {
          LaterDifference(a, b, k - 1);
        }
      }
    }
  }

  lemma FirstByteDecides(a: bytes, b: bytes)
    requires a != [] && b != []
    ensures FirstDifference(a, b, 0) <==> a[0] < b[0]
  {
    assert a[..0] == b[..0];
  }

  lemma {:induction false} BeforeIsTransitive(a: bytes, b: bytes, c: bytes)
    requires Before(a, b) && Before(b, c)
    ensures Before(a, c)
  {
    if a != [] && a[0] == b[0] == c[0] {
      BeforeIsTransitive(a[1..], b[1..], c[1..]);
    }
  }

  ghost predicate Sorted(terms: seq<bytes>) {
    forall i, j | 0 <= i < j < |terms| :: Before(terms[i], terms[j])
  }

  /** Where a term belongs in a sorted list. */
  method PlaceOf(terms: seq<bytes>, t: bytes) returns (k: nat)
    requires Sorted(terms)
    ensures k <= |terms|
    ensures t in terms <==> k < |terms| && terms[k] == t
    ensures t !in terms ==> Sorted(terms[..k] + [t] + terms[k..])
  {
    hide Before;
    k := 0;
    while k < |terms| && Before(terms[k], t)
      invariant k <= |terms|
      invariant forall i | 0 <= i < k :: Before(terms[i], t)
    {
      k := k + 1;
    }
    BeforeIsTotal(t, t);
    if k < |terms| {
      BeforeIsTotal(t, terms[k]);
      forall j | k < j < |terms|
        ensures terms[k] == t || Before(t, terms[k]) ==> Before(t, terms[j])
      {
        if Before(t, terms[k]) {
          BeforeIsTransitive(t, terms[k], terms[j]);
        }
      }
    }
  }

  /** The query terms in order, each once, as sorting and dropping repetitions leaves them. */
  method DistinctTerms(tokens: seq<bytes>) returns (terms: seq<bytes>)
    ensures Sorted(terms)
    ensures forall t :: t in terms <==> t in tokens
  {
    hide Before, Sorted;
    terms := [];
    NothingIsSorted();
    for i := 0 to |tokens|
      invariant Sorted(terms)
      invariant forall t :: t in terms <==> t in tokens[..i]
    {
      var k := PlaceOf(terms, tokens[i]);
      if !(k < |terms| && terms[k] == tokens[i]) {
        assert terms == terms[..k] + terms[k..];
        terms := terms[..k] + [tokens[i]] + terms[k..];
      }
      assert tokens[..i + 1] == tokens[..i] + [tokens[i]];
    }
    assert tokens[..|tokens|] == tokens;
  }

  lemma NothingIsSorted()
    ensures Sorted([])
  {
  }

  lemma SortedIsDistinct(terms: seq<bytes>, i: nat, j: nat)
    requires Sorted(terms) && i < j < |terms|
    ensures terms[i] != terms[j]
  {
    BeforeIsTotal(terms[i], terms[i]);
  }

  function ScoreAt(accum: map<nat, real>, id: nat): real {
    if id in accum then accum[id] else 0.0
  }

  ghost predicate Mentions(list: seq<Posting>, id: nat) {
    exists i :: 0 <= i < |list| && list[i].docId == id
  }

  /** The accumulator after the postings `list` of `term` on top of the terms `done`. */
  ghost predicate Accumulates(r: Ranker, ln: real -> real, ix: Index, accum: map<nat, real>,
                              done: set<bytes>, term: bytes, list: seq<Posting>)
    requires ix.Valid()
  {
    && (forall id :: id in accum <==> Matches(ix, done, id) || Mentions(list, id))
    && (forall id :: ScoreAt(accum, id) ==
          Score(r, ln, ix, done, id) + if Mentions(list, id) then Contribution(r, ln, ix, term, id) else 0.0)
  }

  lemma AccumulateNext(r: Ranker, ln: real -> real, ix: Index, accum: map<nat, real>,
                       done: set<bytes>, term: bytes, list: seq<Posting>, j: nat)
    requires ix.Valid() && list == Lookup(ix.postings, term) && j < |list|
    requires Accumulates(r, ln, ix, accum, done, term, list[..j])
    ensures var id := list[j].docId;
            Accumulates(r, ln, ix, accum[id := ScoreAt(accum, id) + Contribution(r, ln, ix, term, id)],
                        done, term, list[..j + 1])
  {
    hide Contribution, Score, Matches, Index.Valid, Mentions, Holds, Bags, Weights;
    ListHolds(ix, term);
    var id := list[j].docId;
    var weights := Weights(Bags<nat>(ix.store.docs), term);
    NotMentionedBefore(list, weights, j);
    var before, after := accum, accum[id := ScoreAt(accum, id) + Contribution(r, ln, ix, term, id)];
    forall k
      ensures k in after <==> Matches(ix, done, k) || Mentions(list[..j + 1], k)
      ensures ScoreAt(after, k) ==
              Score(r, ln, ix, done, k) + if Mentions(list[..j + 1], k) then Contribution(r, ln, ix, term, k) else 0.0
    {
      MentionsNext(list, j, k);
      assert k in before <==> Matches(ix, done, k) || Mentions(list[..j], k);
      assert ScoreAt(before, k) ==
             Score(r, ln, ix, done, k) + if Mentions(list[..j], k) then Contribution(r, ln, ix, term, k) else 0.0;
    }
  }

  lemma ListHolds(ix: Index, term: bytes)
    requires ix.Valid()
    ensures Holds(Lookup(ix.postings, term), Weights(Bags<nat>(ix.store.docs), term))
  {
    hide TermBag, Store.Valid;
  }

  lemma NotMentionedBefore(list: seq<Posting>, weights: map<nat, nat>, j: nat)
    requires Holds(list, weights) && j < |list|
    ensures !Mentions(list[..j], list[j].docId)
  {
    forall i | 0 <= i < j
      ensures list[i].docId != list[j].docId
    {
      PostingsDistinct(list, weights, i, j);
    }
  }

  lemma MentionsNext(list: seq<Posting>, j: nat, k: nat)
    requires j < |list|
    ensures Mentions(list[..j + 1], k) <==> Mentions(list[..j], k) || k == list[j].docId
  {
    var next := list[..j + 1];
    assert next[j] == list[j];
    if i :| 0 <= i < j && list[..j][i].docId == k {
      assert next[i].docId == k;
    }
    if Mentions(next, k) {
      var i :| 0 <= i < |next| && next[i].docId == k;
      assert i < j ==> list[..j][i].docId == k;
    }
  }

  /** A posting list mentions exactly the documents with the term, and holds their weights. */
  lemma MentionsTerm(ix: Index, term: bytes, id: nat)
    requires ix.Valid()
    ensures Mentions(Lookup(ix.postings, term), id) <==> WeightIn(ix, id, term) > 0
    ensures forall j | 0 <= j < |Lookup(ix.postings, term)| ::
              var p := Lookup(ix.postings, term)[j]; p.termFreq == WeightIn(ix, p.docId, term) > 0
  {
    hide TermBag, Index.Valid, Holds;
    ListHolds(ix, term);
    var list, weights := Lookup(ix.postings, term), Weights(Bags<nat>(ix.store.docs), term);
    forall j | 0 <= j < |list|
      ensures list[j].termFreq == WeightIn(ix, list[j].docId, term) > 0
    {
      PostingMember(list, weights, list[j]);
    }
    if WeightIn(ix, id, term) > 0 {
      var p := Posting(id, weights[id]);
      PostingMember(list, weights, p);
      var j :| 0 <= j < |list| && list[j] == p;
      assert list[j].docId == id;
    }
  }

  /** A finished term moves from the postings being read to the terms done. */
  lemma TermDone(r: Ranker, ln: real -> real, ix: Index, accum: map<nat, real>, done: set<bytes>, term: bytes,
                 next: bytes)
    requires ix.Valid() && term !in done
    requires Accumulates(r, ln, ix, accum, done, term, Lookup(ix.postings, term))
    ensures Accumulates(r, ln, ix, accum, done + {term}, next, [])
  {
    hide Contribution, Score, Matches, Index.Valid, Mentions, TermBag;
    forall id
      ensures id in accum <==> Matches(ix, done + {term}, id)
      ensures ScoreAt(accum, id) == Score(r, ln, ix, done + {term}, id)
    {
      MentionsTerm(ix, term, id);
      NoContribution(r, ln, ix, term, id);
      ScoreSplit(r, ln, ix, done + {term}, term, id);
      assert done + {term} - {term} == done;
      MatchesSplit(ix, done, term, id);
    }
    assert !exists id :: Mentions([], id) by {
      NothingMentioned();
    }
  }

  lemma NothingMentioned()
    ensures forall id :: !Mentions([], id)
  {
  }

  lemma NoContribution(r: Ranker, ln: real -> real, ix: Index, term: bytes, id: nat)
    requires ix.Valid()
    ensures WeightIn(ix, id, term) == 0 ==> Contribution(r, ln, ix, term, id) == 0.0
  {
    hide Index.Valid, TermBag;
  }

  lemma MatchesSplit(ix: Index, done: set<bytes>, term: bytes, id: nat)
    ensures Matches(ix, done + {term}, id) <==> Matches(ix, done, id) || WeightIn(ix, id, term) > 0
  {
    hide TermBag;
    if WeightIn(ix, id, term) > 0 {
      assert term in done + {term} && term in TermBag(ix.store.docs[id]);
    }
  }

  lemma NothingMatchesNothing(r: Ranker, ln: real -> real, ix: Index, term: bytes)
    requires ix.Valid()
    ensures Accumulates(r, ln, ix, map[], {}, term, [])
  {
  }

  lemma AccumulatedMatching(r: Ranker, ln: real -> real, ix: Index, accum: map<nat, real>, terms: set<bytes>,
                            next: bytes)
    requires ix.Valid()
    requires Accumulates(r, ln, ix, accum, terms, next, [])
    ensures accum == Matching(r, ln, ix, terms)
  {
    hide Score, Index.Valid, Mentions, TermBag, Contribution;
    NothingMentioned();
    assert forall id :: id in accum ==> ScoreAt(accum, id) == Score(r, ln, ix, terms, id);
    assert accum.Keys == Matching(r, ln, ix, terms).Keys;
  }

  lemma StartTerm(r: Ranker, ln: real -> real, ix: Index, accum: map<nat, real>, done: set<bytes>, term: bytes)
    requires ix.Valid()
    requires Accumulates(r, ln, ix, accum, done, [], [])
    ensures Accumulates(r, ln, ix, accum, done, term, [])
  {
    hide Score, Contribution, Matches;
  }

  lemma ContributionOfPosting(r: Ranker, ln: real -> real, ix: Index, term: bytes, j: nat)
    requires ix.Valid() && j < |Lookup(ix.postings, term)|
    ensures var p := Lookup(ix.postings, term)[j];
            && p.docId in ix.store.docs && p.termFreq > 0 && ix.AverageDocLength() > 0.0
            && Contribution(r, ln, ix, term, p.docId)
               == Idf(ln, |ix.store.docs|, |Lookup(ix.postings, term)|)
                  * Tf(r, p.termFreq, ix.DocLength(p.docId), ix.AverageDocLength())
  {
    hide Index.Valid, TermBag, Idf, Tf;
    var p := Lookup(ix.postings, term)[j];
    MentionsTerm(ix, term, p.docId);
    AverageIsPositive(ix, p.docId, term);
  }

  /** The accumulator only ever holds stored documents, each under its own id. */
  lemma MatchesAreStored(r: Ranker, ln: real -> real, ix: Index, terms: set<bytes>)
    requires ix.Valid()
    ensures forall id | id in Matching(r, ln, ix, terms) :: id in ix.store.docs && ix.store.docs[id].id == id
  {
  }

  lemma NothingIsTop(docs: map<nat, Document>, limit: nat)
    ensures IsTop([], map[], docs, limit)
  {
  }

  /** Where a result belongs in a ranked list. */
  method RankOf(results: seq<ScoredDocument>, s: ScoredDocument) returns (k: nat)
    requires Ranked(results)
    requires !Includes(results, s.doc.id)
    ensures k <= |results| && Ranked(results[..k] + [s] + results[k..])
  {
    k := 0;
    while k < |results| && RanksBefore(results[k], s)
      invariant k <= |results|
      invariant forall i | 0 <= i < k :: RanksBefore(results[i], s)
    {
      k := k + 1;
    }
    forall i | k <= i < |results|
      ensures RanksBefore(s, results[i])
    {
      assert results[k].doc.id != s.doc.id;
      assert i > k ==> RanksBefore(results[k], results[i]);
    }
  }

  lemma InsertedAreMatches(before: seq<ScoredDocument>, s: ScoredDocument, k: nat,
                           matching: map<nat, real>, docs: map<nat, Document>)
    requires k <= |before| && AreMatches(before, matching, docs)
    requires s.doc.id in matching && s.doc.id in docs && s == ScoredDocument(docs[s.doc.id], matching[s.doc.id])
    ensures AreMatches(before[..k] + [s] + before[k..], matching, docs)
  {
  }

  /** Sorts the accumulated documents, fetching each from the store. */
  method SortedResults(accum: map<nat, real>, docs: map<nat, Document>) returns (results: seq<ScoredDocument>)
    requires forall id | id in accum :: id in docs && docs[id].id == id
    ensures Ranked(results) && AreMatches(results, accum, docs)
    ensures |results| == |accum| && forall id | id in accum :: Includes(results, id)
  {
    hide AreMatches, Ranked, Includes;
    results := [];
    var rest := accum.Keys;
    NothingIncluded();
    assert |accum| == |accum.Keys|;
    while rest != {}
      invariant rest <= accum.Keys
      invariant Ranked(results) && AreMatches(results, accum, docs)
      invariant |results| + |rest| == |accum|
      invariant forall id | id in accum :: Includes(results, id) <==> id !in rest
      decreases rest
    {
      var id :| id in rest;
      var s := ScoredDocument(docs[id], accum[id]);
      var k := RankOf(results, s);
      InsertedAreMatches(results, s, k, accum, docs);
      forall i
        ensures Includes(results[..k] + [s] + results[k..], i) <==> Includes(results, i) || i == id
      {
        IncludesInserted(results, s, k, i);
      }
      results := results[..k] + [s] + results[k..];
      rest := rest - {id};
    }
  }

  lemma NothingIncluded()
    ensures forall id :: !Includes([], id)
    ensures Ranked([])
    ensures forall matching, docs :: AreMatches([], matching, docs)
  {
  }

  lemma IncludesInserted(before: seq<ScoredDocument>, s: ScoredDocument, k: nat, id: nat)
    requires k <= |before|
    ensures Includes(before[..k] + [s] + before[k..], id) <==> Includes(before, id) || id == s.doc.id
  {
    var after := before[..k] + [s] + before[k..];
    assert after[k] == s;
    if Includes(before, id) {
      var i :| 0 <= i < |before| && before[i].doc.id == id;
      assert after[if i < k then i else i + 1] == before[i];
    }
    if Includes(after, id) {
      var i :| 0 <= i < |after| && after[i].doc.id == id;
      assert i != k ==> before[if i < k then i else i - 1] == after[i];
    }
  }

  /** Cutting a sorted list of all matches at `limit` leaves the best. */
  lemma TruncatedIsTop(all: seq<ScoredDocument>, matching: map<nat, real>, docs: map<nat, Document>, limit: nat)
    requires Ranked(all) && AreMatches(all, matching, docs)
    requires |all| == |matching| && forall id | id in matching :: Includes(all, id)
    ensures IsTop(if |all| > limit then all[..limit] else all, matching, docs, limit)
  {
    var results := if |all| > limit then all[..limit] else all;
    forall id, i | id in matching && id in docs && !Includes(results, id) && 0 <= i < |results|
      ensures RanksBefore(results[i], ScoredDocument(docs[id], matching[id]))
    {
      var j :| 0 <= j < |all| && all[j].doc.id == id;
      assert forall k | 0 <= k < |results| :: results[k] == all[k];
    }
  }

  ghost function TermSet(tokens: seq<bytes>): set<bytes> {
    set t | t in tokens
  }

  /** Repeating or reordering query terms changes no result. */
  lemma QueryOrderIsIrrelevant(
    r: Ranker, ln: real -> real, ix: Index, q: seq<bytes>, q': seq<bytes>, limit: nat,
    results: seq<ScoredDocument>, results': seq<ScoredDocument>)
    requires ix.Valid()
    requires forall t :: t in q <==> t in q'
    requires IsTop(results, Matching(r, ln, ix, TermSet(q)), ix.store.docs, limit)
    requires IsTop(results', Matching(r, ln, ix, TermSet(q')), ix.store.docs, limit)
    ensures results == results'
  {
    hide IsTop, Matching, Index.Valid;
    assert TermSet(q) == TermSet(q');
    TopIsUnique(results, results', Matching(r, ln, ix, TermSet(q)), ix.store.docs, limit);
  }

  /** When a query finds nothing to rank, nothing matches it. */
  lemma EmptyCases(r: Ranker, ln: real -> real, ix: Index, terms: set<bytes>)
    requires ix.Valid()
    requires terms == {} || ix.store.docs == map[] || ix.AverageDocLength() <= 0.0
    ensures Matching(r, ln, ix, terms) == map[]
  {
    forall id | Matches(ix, terms, id)
      ensures false
    {
      var term :| term in terms && term in TermBag(ix.store.docs[id]);
      AverageIsPositive(ix, id, term);
    }
  }

  /**
    `rank`: the `limit` best documents with at least one of the query terms. The result depends on the
    set of query terms only. Any parameters will do for which no denominator is zero.
    */
  method Rank(r: Ranker, ln: real -> real, index: InvertedIndex, queryTokens: seq<bytes>, limit: nat)
    returns (results: seq<ScoredDocument>)
    requires index.Valid()
    ensures NoZeroDenominator(r, index.View()) ==>
              IsTop(results, Matching(r, ln, index.View(), TermSet(queryTokens)), index.docs, limit)
  {
    hide NoZeroDenominator, Before, Sorted, Index.Valid, Score, Contribution, Matching, Accumulates, Matches, IsTop;
    hide Ranked, AreMatches, Includes;
    ghost var ix := index.View();
    results := [];
    if queryTokens == [] {
      EmptyCases(r, ln, ix, TermSet(queryTokens));
      NothingIsTop(index.docs, limit);
      return;
    }
    var N := |index.docs|;
    var avgdl := index.AverageDocLength();
    if N == 0 || avgdl <= 0.0 {
      EmptyCases(r, ln, ix, TermSet(queryTokens));
      NothingIsTop(index.docs, limit);
      return;
    }
    var terms := DistinctTerms(queryTokens);
    var accum: map<nat, real> := map[];
    NothingMatchesNothing(r, ln, ix, []);
    assert TermSet(terms[..0]) == {};
    forall i, j | 0 <= i < j < |terms|
      ensures terms[i] != terms[j]
    {
      SortedIsDistinct(terms, i, j);
    }
    for i := 0 to |terms|
      invariant Accumulates(r, ln, ix, accum, TermSet(terms[..i]), [], [])
    {
      var term := terms[i];
      ghost var done := TermSet(terms[..i]);
      assert TermSet(terms[..i + 1]) == done + {term};
      var list := Lookup(index.postings, term);
      var idf := Idf(ln, N, |list|);
      StartTerm(r, ln, ix, accum, done, term);
      assert list[..0] == [] && list[..|list|] == list;
      for j := 0 to |list|
        invariant Accumulates(r, ln, ix, accum, done, term, list[..j])
      {
        var p := list[j];
        AccumulateNext(r, ln, ix, accum, done, term, list, j);
        ContributionOfPosting(r, ln, ix, term, j);
        var dl := if p.docId in index.docLengths then index.docLengths[p.docId] else 0;
        assert idf * Tf(r, p.termFreq, dl, avgdl) == Contribution(r, ln, ix, term, p.docId);
        accum := accum[p.docId := ScoreAt(accum, p.docId) + idf * Tf(r, p.termFreq, dl, avgdl)];
      }
      TermDone(r, ln, ix, accum, done, term, []);
    }
    assert terms[..|terms|] == terms;
    assert TermSet(terms) == TermSet(queryTokens);
    AccumulatedMatching(r, ln, ix, accum, TermSet(terms), []);
    MatchesAreStored(r, ln, ix, TermSet(terms));
    results := SortedResults(accum, index.docs);
    TruncatedIsTop(results, accum, index.docs, limit);
    if |results| > limit {
      results := results[..limit];
    }
  }
}
