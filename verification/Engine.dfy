/** Saving and loading an index (src/engine.cpp), with the file taken as a byte string. */
module Engine {
  import opened Bytes
  import opened TermWeights
  import opened IndexModel
  import opened InvertedIndex
  import opened Bm25
  import opened Rankings
  import opened Snapshot

  /** `saveState` */
  method SaveState(index: InvertedIndex) returns (file: bytes, ghost listed: seq<Document>)
    requires index.Valid()
    ensures Lists(listed, index.docs) && file == Serialize(listed)
  {
    var docs := index.AllDocuments();
    file := SerializeDocuments(docs);
    listed := docs;
  }

  /** `loadState`: an unreadable file leaves the index as it was. */
  method LoadState(file: bytes, index: InvertedIndex) returns (ok: bool)
    requires index.Valid()
    modifies index
    ensures index.Valid() && ok == Deserialize(file).ok
    ensures ok ==> index.View().store == EMPTY.PutAll(Deserialize(file).docs)
    ensures !ok ==> index.View() == old(index.View())
  {
    hide Index.Valid, Deserialize;
    var docs;
    ok, docs := DeserializeDocuments(file);
    if ok {
      index.ReplaceAll(docs);
    }
  }

  /** Loading a saved index gives an equivalent one. */
  lemma LoadedIsEquivalent(ix: Index, listed: seq<Document>, loaded: Index)
    requires ix.Valid() && loaded.Valid()
    requires Lists(listed, ix.store.docs) && AllFit(listed) && |listed| <= MAX_COUNT
    requires loaded.store == EMPTY.PutAll(Deserialize(Serialize(listed)).docs)
    ensures Deserialize(Serialize(listed)).ok
    ensures loaded.store.Contents() == ix.store.Contents()
    ensures Equivalent(ix, loaded)
  {
    hide Index.Valid, Store.Valid, AllFit, Serialize, Deserialize, Equivalent, Lists;
    RoundTrip(listed, []);
    assert Serialize(listed) + [] == Serialize(listed);
    var ds := WithoutIds(listed);
    SurvivorsWithoutIds(ix.store, listed);
    StoreIsValid(ix);
    SurvivorsContents(ix.store, listed, ds);
    RebuildingIsEquivalent(ix, listed, ds, loaded);
  }

  lemma StoreIsValid(ix: Index)
    requires ix.Valid()
    ensures ix.store.Valid()
  {
  }

  lemma SurvivorsWithoutIds(st: Store, listed: seq<Document>)
    requires Lists(listed, st.docs)
    ensures Survivors(WithoutIds(listed), listed, st)
  {
    hide Lists;
    WithoutIdsAt(listed, 0);
    forall i | 0 <= i < |listed|
      ensures WithoutIds(listed)[i].Content() == listed[i].Content()
    {
      WithoutIdsAt(listed, i);
    }
  }

  /** One query term adds the same to a document's score in two indexes with the same contents. */
  lemma SameContribution(r: Ranker, ln: real -> real, a: Index, b: Index, term: bytes, url: bytes)
    requires a.Valid() && b.Valid()
    requires a.store.Contents() == b.store.Contents()
    requires url in a.store.urlToId && url in b.store.urlToId
    ensures Contribution(r, ln, a, term, a.store.urlToId[url]) == Contribution(r, ln, b, term, b.store.urlToId[url])
  {
    hide Index.Valid, Idf, Tf, TermBag;
    ContentsDetermineIndex(a, b);
    SameWeight(a, b, term, url);
    var i, j := a.store.urlToId[url], b.store.urlToId[url];
    assert SameEntry(a, b, url);
    if WeightIn(a, i, term) > 0 {
      AverageIsPositive(a, i, term);
    }
  }

  lemma SameWeight(a: Index, b: Index, term: bytes, url: bytes)
    requires a.Valid() && b.Valid() && a.store.Contents() == b.store.Contents()
    requires url in a.store.urlToId && url in b.store.urlToId
    ensures WeightIn(a, a.store.urlToId[url], term) == WeightIn(b, b.store.urlToId[url], term)
    ensures a.store.urlToId[url] in a.store.docs && b.store.urlToId[url] in b.store.docs
  {
    hide TermBag, PostingsMatch, TermsMatch;
    assert a.store.Contents()[url] == a.store.docs[a.store.urlToId[url]].Content();
    assert b.store.Contents()[url] == b.store.docs[b.store.urlToId[url]].Content();
    ContentHasSameBag(a.store.docs[a.store.urlToId[url]]);
    ContentHasSameBag(b.store.docs[b.store.urlToId[url]]);
  }

  lemma {:induction false} SameScore(r: Ranker, ln: real -> real, a: Index, b: Index, terms: set<bytes>, url: bytes)
    requires a.Valid() && b.Valid()
    requires a.store.Contents() == b.store.Contents()
    requires url in a.store.urlToId && url in b.store.urlToId
    ensures Score(r, ln, a, terms, a.store.urlToId[url]) == Score(r, ln, b, terms, b.store.urlToId[url])
    ensures Matches(a, terms, a.store.urlToId[url]) <==> Matches(b, terms, b.store.urlToId[url])
    decreases |terms|
  {
    hide Index.Valid, Store.Valid, Store.Contents, Contribution, Score, Matches, WeightIn;
    var i, j := a.store.urlToId[url], b.store.urlToId[url];
    if terms == {} {
      NoTerms(r, ln, a, i);
      NoTerms(r, ln, b, j);
    } else {
      var term :| term in terms;
      var rest := terms - {term};
      assert rest + {term} == terms;
      ScoreSplit(r, ln, a, terms, term, i);
      ScoreSplit(r, ln, b, terms, term, j);
      SameContribution(r, ln, a, b, term, url);
      SameWeight(a, b, term, url);
      MatchesSplit(a, rest, term, i);
      MatchesSplit(b, rest, term, j);
      SameScore(r, ln, a, b, rest, url);
    }
  }

  /**
    Saving and loading preserves search: the statistics are the same, and for any query every URL
    matches in the loaded index exactly when it did before, with the same score.
    */
  lemma SearchSurvivesSaving(
    r: Ranker, ln: real -> real, ix: Index, listed: seq<Document>, loaded: Index, query: set<bytes>, url: bytes)
    requires ix.Valid() && loaded.Valid()
    requires Lists(listed, ix.store.docs) && AllFit(listed) && |listed| <= MAX_COUNT
    requires loaded.store == EMPTY.PutAll(Deserialize(Serialize(listed)).docs)
    ensures Equivalent(ix, loaded)
    ensures url in ix.store.urlToId <==> url in loaded.store.urlToId
    ensures url in ix.store.urlToId ==>
              && (Matches(ix, query, ix.store.urlToId[url]) <==> Matches(loaded, query, loaded.store.urlToId[url]))
              && Score(r, ln, ix, query, ix.store.urlToId[url])
                 == Score(r, ln, loaded, query, loaded.store.urlToId[url])
  {
    hide Index.Valid, Store.Valid, AllFit, Serialize, Deserialize, Lists, Score, Matches;
    LoadedIsEquivalent(ix, listed, loaded);
    if url in ix.store.urlToId {
      SameScore(r, ln, ix, loaded, query, url);
    }
  }

  /** The ids of one index by the ids of another with the same URLs. */
  ghost function OldIds(a: Index, b: Index): map<nat, nat> {
    map id | id in b.store.docs && b.store.docs[id].url in a.store.urlToId :: a.store.urlToId[b.store.docs[id].url]
  }

  /** The matches of a query in two indexes with the same contents are the same, up to ids. */
  lemma SameMatches(r: Ranker, ln: real -> real, a: Index, b: Index, terms: set<bytes>)
    requires a.Valid() && b.Valid()
    requires a.store.Contents() == b.store.Contents()
    ensures Renamed(Matching(r, ln, a, terms), Matching(r, ln, b, terms), OldIds(a, b))
    ensures forall id | id in Matching(r, ln, b, terms) ::
              && id in OldIds(a, b) && OldIds(a, b)[id] in a.store.docs
              && id in b.store.docs && b.store.docs[id].Content() == a.store.docs[OldIds(a, b)[id]].Content()
  {
    hide Index.Valid, Store.Contents, Score, Matches, Equivalent, OldIds, Document.Content;
    forall id | id in b.store.docs
      ensures id in OldIds(a, b) && OldIds(a, b)[id] in a.store.docs
      ensures b.store.docs[id].Content() == a.store.docs[OldIds(a, b)[id]].Content()
      ensures Matches(b, terms, id) <==> Matches(a, terms, OldIds(a, b)[id])
      ensures Score(r, ln, a, terms, OldIds(a, b)[id]) == Score(r, ln, b, terms, id)
    {
      OldIdOf(a, b, id);
      SameScore(r, ln, a, b, terms, b.store.docs[id].url);
    }
    forall id | id in a.store.docs
      ensures exists l :: l in b.store.docs && l in OldIds(a, b) && OldIds(a, b)[l] == id
    {
      NewIdOf(a, b, id);
    }
    forall id, l | id in b.store.docs && l in b.store.docs && OldIds(a, b)[id] == OldIds(a, b)[l]
      ensures id == l
    {
      OldIdOf(a, b, id);
      OldIdOf(a, b, l);
      SameContentSameUrl(b.store.docs[id], b.store.docs[l]);
    }
  }

  lemma OldIdOf(a: Index, b: Index, id: nat)
    requires a.Valid() && b.Valid() && a.store.Contents() == b.store.Contents() && id in b.store.docs
    ensures var url := b.store.docs[id].url;
            && url in a.store.urlToId && url in b.store.urlToId && b.store.urlToId[url] == id
            && id in OldIds(a, b) && OldIds(a, b)[id] == a.store.urlToId[url] && OldIds(a, b)[id] in a.store.docs
            && b.store.docs[id].Content() == a.store.docs[OldIds(a, b)[id]].Content()
  {
    hide Index.Valid, Store.Contents;
    SameStored(a, b, id);
  }

  lemma NewIdOf(a: Index, b: Index, id: nat)
    requires a.Valid() && b.Valid() && a.store.Contents() == b.store.Contents() && id in a.store.docs
    ensures exists l :: l in b.store.docs && l in OldIds(a, b) && OldIds(a, b)[l] == id
  {
    hide Index.Valid, Store.Contents;
    SameStored(b, a, id);
    var l := b.store.urlToId[a.store.docs[id].url];
    SameContentSameUrl(b.store.docs[l], a.store.docs[id]);
    assert OldIds(a, b)[l] == id;
  }

  lemma SameStored(a: Index, b: Index, id: nat)
    requires a.Valid() && b.Valid() && a.store.Contents() == b.store.Contents() && id in b.store.docs
    ensures var url := b.store.docs[id].url;
            && url in a.store.urlToId && url in b.store.urlToId && b.store.urlToId[url] == id
            && a.store.urlToId[url] in a.store.docs
            && b.store.docs[id].Content() == a.store.docs[a.store.urlToId[url]].Content()
  {
    hide PostingsMatch, TermsMatch;
    var url := b.store.docs[id].url;
    assert b.store.Contents()[url] == b.store.docs[id].Content();
    assert a.store.Contents()[url] == a.store.docs[a.store.urlToId[url]].Content();
  }

  lemma SameDenominators(r: Ranker, a: Index, b: Index)
    requires a.Valid() && b.Valid() && a.store.Contents() == b.store.Contents()
    requires NoZeroDenominator(r, a)
    ensures NoZeroDenominator(r, b)
  {
    hide Index.Valid, Store.Contents, LengthNorm, TermBag;
    ContentsDetermineIndex(a, b);
    forall term, id | WeightIn(b, id, term) > 0 && b.AverageDocLength() > 0.0
      ensures WeightIn(b, id, term) as real + LengthNorm(r, b.DocLength(id), b.AverageDocLength()) != 0.0
    {
      var url := b.store.docs[id].url;
      SameStored(a, b, id);
      SameWeight(a, b, term, url);
      assert SameEntry(a, b, url);
      assert WeightIn(a, a.store.urlToId[url], term) > 0;
    }
  }

  /** The best results of a query over two indexes with the same contents, up to documents of equal score. */
  lemma SameResults(
    r: Ranker, ln: real -> real, a: Index, b: Index, terms: set<bytes>, limit: nat,
    before: seq<ScoredDocument>, after: seq<ScoredDocument>)
    requires a.Valid() && b.Valid()
    requires a.store.Contents() == b.store.Contents()
    requires IsTop(before, Matching(r, ln, a, terms), a.store.docs, limit)
    requires IsTop(after, Matching(r, ln, b, terms), b.store.docs, limit)
    ensures SameRanking(before, after, Matching(r, ln, a, terms))
  {
    hide Index.Valid, Store.Contents, Equivalent, Matching, IsTop, SameRanking, Renamed;
    SameMatches(r, ln, a, b, terms);
    MatchesAreStored(r, ln, a, terms);
    MatchesAreStored(r, ln, b, terms);
    RenamedRanking(before, after, Matching(r, ln, a, terms), Matching(r, ln, b, terms), a.store.docs, b.store.docs,
                   limit, OldIds(a, b));
  }

  /** Save one index and load the file into another: the two hold the same documents and are equivalent. */
  method SaveAndLoad(source: InvertedIndex, target: InvertedIndex)
    returns (ok: bool, ghost listed: seq<Document>)
    requires source.Valid() && target.Valid() && source != target
    modifies target
    ensures target.Valid() && Lists(listed, source.docs)
    ensures AllFit(listed) && |listed| <= MAX_COUNT ==>
              && ok && source.View().store.Contents() == target.View().store.Contents()
              && Equivalent(source.View(), target.View())
  {
    hide Index.Valid, AllFit, Serialize, Deserialize, Lists, Equivalent;
    var file;
    file, listed := SaveState(source);
    ok := LoadState(file, target);
    if AllFit(listed) && |listed| <= MAX_COUNT {
      RoundTrip(listed, []);
      assert Serialize(listed) + [] == Serialize(listed);
      LoadedIsEquivalent(source.View(), listed, target.View());
    }
  }

  /** The whole round: search, save, load and search again. */
  method SearchSaveLoadSearch(
    r: Ranker, ln: real -> real, source: InvertedIndex, target: InvertedIndex, query: seq<bytes>, limit: nat)
    returns (before: seq<ScoredDocument>, after: seq<ScoredDocument>, ghost listed: seq<Document>)
    requires source.Valid() && target.Valid() && source != target
    modifies target
    ensures source.Valid() && target.Valid() && Lists(listed, source.docs)
    ensures AllFit(listed) && |listed| <= MAX_COUNT && NoZeroDenominator(r, source.View()) ==>
              SameRanking(before, after, Matching(r, ln, source.View(), TermSet(query)))
  {
    hide Index.Valid, AllFit, Lists, Equivalent, Store.Contents, IsTop, Matching, SameRanking, NoZeroDenominator;
    before := Rank(r, ln, source, query, limit);
    var ok;
    ok, listed := SaveAndLoad(source, target);
    after := Rank(r, ln, target, query, limit);
    if AllFit(listed) && |listed| <= MAX_COUNT && NoZeroDenominator(r, source.View()) {
      SameDenominators(r, source.View(), target.View());
      SameResults(r, ln, source.View(), target.View(), TermSet(query), limit, before, after);
    }
  }
}
