/**
  The inverted index of src/inverted_index.cpp as a value: its seven fields, the invariant that ties
  them together, and what the stored documents alone determine.
  */
module IndexModel {
  import opened Bytes
  import opened Multisets
  import opened TermWeights
  import Tokenizer

  type u32 = n: nat | n < 0x1_0000_0000

  datatype SourceType = ClearWeb | Onion

  datatype Document = Document(
    id: nat, url: bytes, title: bytes, snippet: bytes, content: bytes, source: SourceType, depth: u32)
  {
    /** The document as handed in, before the index has given it an id. */
    function Content(): Document {
      this.(id := 0)
    }

    /** All text that takes part in indexing (include/shadowse/document.hpp). */
    function IndexableText(): bytes {
      title + [0x0A] + snippet + [0x0A] + content
    }
  }

  /** A document's terms with their weights: each title token three times, every other token once. */
  ghost function TermBag(d: Document): Bag {
    var title := multiset(Tokenizer.Tokens(d.title));
    title + title + title + multiset(Tokenizer.Tokens(d.snippet)) + multiset(Tokenizer.Tokens(d.content))
  }

  /** A term's weight is its count in the whole indexable text plus twice its count in the title. */
  lemma WeightFromIndexableText(d: Document, term: bytes)
    ensures TermBag(d)[term] == multiset(Tokenizer.Tokens(d.IndexableText()))[term]
                            + 2 * multiset(Tokenizer.Tokens(d.title))[term]
    ensures |TermBag(d)| == 3 * |Tokenizer.Tokens(d.title)| + |Tokenizer.Tokens(d.snippet)|
                        + |Tokenizer.Tokens(d.content)|
  {
    Tokenizer.TokensSplitAtAscii(d.title, 0x0A, d.snippet);
    Tokenizer.TokensSplitAtAscii(d.title + [0x0A] + d.snippet, 0x0A, d.content);
  }

  // ----- The stored documents -----

  /** The part of the index the operations determine outright. */
  datatype Store = Store(docs: map<nat, Document>, urlToId: map<bytes, nat>, nextId: nat)
  {
    /** Ids are handed out once, and URLs and ids correspond one to one. */
    ghost predicate Valid() {
      && 1 <= nextId
      && (forall id | id in docs :: 1 <= id < nextId && docs[id].id == id)
      && (forall id | id in docs :: docs[id].url in urlToId && urlToId[docs[id].url] == id)
      && (forall url | url in urlToId :: urlToId[url] in docs && docs[urlToId[url]].url == url)
    }

    /** The documents by URL, without ids: what a user of the index stored. */
    ghost function Contents(): map<bytes, Document>
      requires Valid()
    {
      map url | url in urlToId :: docs[urlToId[url]].Content()
    }

    function IdFor(url: bytes): nat {
      if url in urlToId then urlToId[url] else nextId
    }

    /** Adds a document, or replaces the one with its URL and keeps that one's id. */
    function Put(d: Document): Store {
      var id := IdFor(d.url);
      Store(docs[id := d.(id := id)], urlToId[d.url := id], if d.url in urlToId then nextId else nextId + 1)
    }

    function Drop(id: nat): Store {
      if id in docs then Store(docs - {id}, urlToId - {docs[id].url}, nextId) else this
    }

    function PutAll(ds: seq<Document>): Store {
      if ds == [] then this else PutAll(ds[..|ds| - 1]).Put(ds[|ds| - 1])
    }
  }

  const EMPTY := Store(map[], map[], 1)

  /** Putting replaces what is stored under the document's URL and nothing else. */
  lemma PutKeepsValid(st: Store, d: Document)
    requires st.Valid()
    ensures st.Put(d).Valid()
    ensures st.Put(d).Contents() == st.Contents()[d.url := d.Content()]
  {
    var st', id := st.Put(d), st.IdFor(d.url);
    forall k | k in st'.docs
      ensures 1 <= k < st'.nextId && st'.docs[k].id == k
      ensures st'.docs[k].url in st'.urlToId && st'.urlToId[st'.docs[k].url] == k
    {
      if k != id {
        assert k in st.docs && st.urlToId[st.docs[k].url] == k;
      }
    }
    forall url | url in st'.urlToId
      ensures st'.urlToId[url] in st'.docs && st'.docs[st'.urlToId[url]].url == url
    {
      if url != d.url {
        assert url in st.urlToId && st.docs[st.urlToId[url]].url == url;
      }
    }
    PutContents(st, d);
  }

  lemma PutContents(st: Store, d: Document)
    requires st.Valid() && st.Put(d).Valid()
    ensures st.Put(d).Contents() == st.Contents()[d.url := d.Content()]
  {
    var a, b := st.Put(d).Contents(), st.Contents()[d.url := d.Content()];
    assert a.Keys == b.Keys;
    forall url | url in a && url != d.url
      ensures a[url] == b[url]
    {
      assert st.docs[st.urlToId[url]].url == url;
      assert url in st.Contents();
    }
    assert a[d.url] == d.(id := st.IdFor(d.url)).Content() == d.Content();
  }

  lemma DropKeepsValid(st: Store, id: nat)
    requires st.Valid()
    ensures st.Drop(id).Valid()
    ensures st.Drop(id).Contents() == if id in st.docs then st.Contents() - {st.docs[id].url} else st.Contents()
  {
    if id in st.docs {
      var st' := st.Drop(id);
      assert forall k | k in st'.docs :: st.urlToId[st'.docs[k].url] == k;
    }
  }

  lemma {:induction false} PutAllKeepsValid(st: Store, ds: seq<Document>)
    requires st.Valid()
    ensures st.PutAll(ds).Valid()
  {
    if ds != [] {
      PutAllKeepsValid(st, ds[..|ds| - 1]);
      PutKeepsValid(st.PutAll(ds[..|ds| - 1]), ds[|ds| - 1]);
    }
  }

  ghost predicate DistinctUrls(ds: seq<Document>) {
    forall i, j | 0 <= i < j < |ds| :: ds[i].url != ds[j].url
  }

  /** `contents` is exactly the documents of `ds`, by URL. */
  ghost predicate StoresExactly(contents: map<bytes, Document>, ds: seq<Document>) {
    && (forall i | 0 <= i < |ds| :: ds[i].url in contents && contents[ds[i].url] == ds[i].Content())
    && (forall url | url in contents :: exists i :: 0 <= i < |ds| && ds[i].url == url)
  }

  lemma StoresOneMore(contents: map<bytes, Document>, ds: seq<Document>, d: Document)
    requires StoresExactly(contents, ds) && DistinctUrls(ds + [d])
    ensures StoresExactly(contents[d.url := d.Content()], ds + [d])
  {
    var more, after := ds + [d], contents[d.url := d.Content()];
    forall i | 0 <= i < |more|
      ensures more[i].url in after && after[more[i].url] == more[i].Content()
    {
      assert i < |ds| ==> more[i] == ds[i] && more[i].url != more[|ds|].url;
    }
    forall url | url in after
      ensures exists i :: 0 <= i < |more| && more[i].url == url
    {
      if url == d.url {
        assert more[|ds|].url == url;
      } else {
        var i :| 0 <= i < |ds| && ds[i].url == url;
        assert more[i].url == url;
      }
    }
  }

  /** Storing documents with distinct URLs one after another stores exactly them. */
  lemma {:induction false} PutAllContents(ds: seq<Document>)
    requires DistinctUrls(ds)
    ensures EMPTY.PutAll(ds).Valid()
    ensures StoresExactly(EMPTY.PutAll(ds).Contents(), ds)
  {
    PutAllKeepsValid(EMPTY, ds);
    if ds != [] {
      var front, last := ds[..|ds| - 1], ds[|ds| - 1];
      assert ds == front + [last];
      PutAllContents(front);
      PutKeepsValid(EMPTY.PutAll(front), last);
      StoresOneMore(EMPTY.PutAll(front).Contents(), front, last);
    }
  }

  lemma SameDocumentsStored(a: map<bytes, Document>, b: map<bytes, Document>, ds: seq<Document>)
    requires StoresExactly(a, ds) && StoresExactly(b, ds)
    ensures a == b
  {
  }

  // ----- Histories -----

  datatype Operation =
    | Add(document: Document)
    | Remove(id: nat)
    | Clear
    | ReplaceAll(documents: seq<Document>)

  function Apply(st: Store, op: Operation): Store {
    match op
    case Add(d) => st.Put(d)
    case Remove(id) => st.Drop(id)
    case Clear => EMPTY
    case ReplaceAll(ds) => EMPTY.PutAll(ds)
  }

  function History(ops: seq<Operation>): Store {
    if ops == [] then EMPTY else Apply(History(ops[..|ops| - 1]), ops[|ops| - 1])
  }

  /** No history breaks the correspondence of URLs, ids and documents. */
  lemma {:induction false} HistoryIsValid(ops: seq<Operation>)
    ensures History(ops).Valid()
  {
    if ops != [] {
      var before, op := History(ops[..|ops| - 1]), ops[|ops| - 1];
      HistoryIsValid(ops[..|ops| - 1]);
      match op
      case Add(d) => PutKeepsValid(before, d);
      case Remove(id) => DropKeepsValid(before, id);
      case Clear =>
      case ReplaceAll(ds) => PutAllKeepsValid(EMPTY, ds);
    }
  }

  // ----- The whole index -----

  ghost function Bags<K>(docs: map<K, Document>): map<K, Bag> {
    map k | k in docs :: TermBag(docs[k])
  }

  function Lookup(postings: map<bytes, seq<Posting>>, term: bytes): seq<Posting> {
    if term in postings then postings[term] else []
  }

  function TermList(docTerms: map<nat, seq<(bytes, nat)>>, id: nat): seq<(bytes, nat)> {
    if id in docTerms then docTerms[id] else []
  }

  /** Every posting list holds exactly one entry per document with the term, and none is empty. */
  ghost predicate PostingsMatch(postings: map<bytes, seq<Posting>>, bags: map<nat, Bag>) {
    && (forall term | term in postings :: postings[term] != [])
    && (forall term :: Holds(Lookup(postings, term), Weights(bags, term)))
  }

  /** A document without tokens has no entry at all. */
  ghost predicate TermsMatch(docTerms: map<nat, seq<(bytes, nat)>>, bags: map<nat, Bag>) {
    && (forall id | id in docTerms :: id in bags && docTerms[id] != [])
    && (forall id | id in bags :: HoldsTerms(TermList(docTerms, id), bags[id]))
  }

  datatype Index = Index(
    store: Store,
    postings: map<bytes, seq<Posting>>,
    docTerms: map<nat, seq<(bytes, nat)>>,
    docLengths: map<nat, nat>,
    totalTerms: nat)
  {
    ghost predicate Valid() {
      && store.Valid()
      && PostingsMatch(postings, Bags<nat>(store.docs))
      && TermsMatch(docTerms, Bags<nat>(store.docs))
      && docLengths == Lengths(Bags<nat>(store.docs))
      && totalTerms == Total(docLengths)
    }

    function AverageDocLength(): real {
      if store.docs == map[] then 0.0 else totalTerms as real / |store.docs| as real
    }

    function DocLength(id: nat): nat {
      if id in docLengths then docLengths[id] else 0
    }
  }

  /** A posting list is as long as its term has documents: never longer than the whole store. */
  lemma FrequencyBounded(ix: Index, term: bytes)
    requires ix.Valid()
    ensures |Lookup(ix.postings, term)| == |Weights(Bags<nat>(ix.store.docs), term)| <= |ix.store.docs|
  {
    assert Holds(Lookup(ix.postings, term), Weights(Bags<nat>(ix.store.docs), term));
    HoldsCardinality(Lookup(ix.postings, term), Weights(Bags<nat>(ix.store.docs), term));
    SubmapCardinality(Weights(Bags<nat>(ix.store.docs), term), ix.store.docs);
  }

  // ----- Equality up to ids and list order -----

  /** Two indexes no query can tell apart, except through ids and the order of posting lists. */
  ghost predicate Equivalent(a: Index, b: Index) {
    && |a.store.docs| == |b.store.docs|
    && a.totalTerms == b.totalTerms
    && a.AverageDocLength() == b.AverageDocLength()
    && a.postings.Keys == b.postings.Keys
    && a.store.urlToId.Keys == b.store.urlToId.Keys
    && (forall term :: |Lookup(a.postings, term)| == |Lookup(b.postings, term)|)
    && (forall url | url in a.store.urlToId :: SameEntry(a, b, url))
  }

  ghost predicate SameEntry(a: Index, b: Index, url: bytes)
    requires url in a.store.urlToId && url in b.store.urlToId
  {
    var i, j := a.store.urlToId[url], b.store.urlToId[url];
    && i in a.store.docs && j in b.store.docs
    && a.store.docs[i].Content() == b.store.docs[j].Content()
    && a.DocLength(i) == b.DocLength(j)
    && forall term, freq ::
         Posting(i, freq) in Lookup(a.postings, term) <==> Posting(j, freq) in Lookup(b.postings, term)
  }

  lemma ContentHasSameBag(d: Document)
    ensures TermBag(d.Content()) == TermBag(d)
  {
  }

  ghost function ById(st: Store): map<nat, Document> {
    map id | id in st.docs :: st.docs[id].Content()
  }

  /** Ids are URLs renamed. */
  lemma ContentsRenamed(st: Store)
    requires st.Valid()
    ensures Renamed(ById(st), st.Contents(), st.urlToId)
    ensures |st.docs| == |st.Contents()|
  {
    var back := map id | id in st.docs :: st.docs[id].url;
    RenamedByInverse(ById(st), st.Contents(), st.urlToId, back);
    RenamedCardinality(ById(st), st.Contents(), st.urlToId);
    SubmapCardinality(st.docs, ById(st));
    SubmapCardinality(ById(st), st.docs);
  }

  lemma RenamedDocuments<K, L>(a: map<K, Document>, b: map<L, Document>, name: map<L, K>)
    requires Renamed(a, b, name)
    ensures Renamed(Bags(a), Bags(b), name)
  {
  }

  lemma BagsWithoutIds(st: Store)
    ensures Bags<nat>(ById(st)) == Bags<nat>(st.docs)
  {
    forall id | id in st.docs
      ensures Bags<nat>(ById(st))[id] == Bags<nat>(st.docs)[id]
    {
      ContentHasSameBag(st.docs[id]);
    }
  }

  /** The number of documents and tokens and every document frequency follow from the contents. */
  lemma StatisticsByUrl(ix: Index, term: bytes)
    requires ix.Valid()
    ensures |ix.store.docs| == |ix.store.Contents()|
    ensures ix.totalTerms == Total(Lengths(Bags(ix.store.Contents())))
    ensures |Lookup(ix.postings, term)| == |Weights(Bags(ix.store.Contents()), term)|
  {
    var st := ix.store;
    ContentsRenamed(st);
    RenamedDocuments(ById(st), st.Contents(), st.urlToId);
    BagsWithoutIds(st);
    RenamedBags(Bags<nat>(st.docs), Bags(st.Contents()), st.urlToId, term);
    FrequencyBounded(ix, term);
  }

  /** A valid index is determined, up to ids and list order, by the documents stored under each URL. */
  lemma ContentsDetermineIndex(a: Index, b: Index)
    requires a.Valid() && b.Valid()
    requires a.store.Contents() == b.store.Contents()
    ensures Equivalent(a, b)
  {
    StatisticsByUrl(a, []);
    StatisticsByUrl(b, []);
    SameAverage(a, b);
    forall term
      ensures |Lookup(a.postings, term)| == |Lookup(b.postings, term)|
    {
      StatisticsByUrl(a, term);
      StatisticsByUrl(b, term);
    }
    SameTerms(a, b);
    SameUrls(a.store, b.store);
    forall url | url in a.store.urlToId
      ensures SameEntry(a, b, url)
    {
      SameEntryForUrl(a, b, url);
    }
  }

  lemma SameUrls(a: Store, b: Store)
    requires a.Valid() && b.Valid() && a.Contents() == b.Contents()
    ensures a.urlToId.Keys == b.urlToId.Keys
  {
    assert a.urlToId.Keys == a.Contents().Keys;
    assert b.urlToId.Keys == b.Contents().Keys;
  }

  lemma SameTerms(a: Index, b: Index)
    requires a.Valid() && b.Valid()
    requires forall term :: |Lookup(a.postings, term)| == |Lookup(b.postings, term)|
    ensures a.postings.Keys == b.postings.Keys
  {
    forall term
      ensures term in a.postings <==> term in b.postings
    {
      assert |Lookup(a.postings, term)| == |Lookup(b.postings, term)|;
    }
  }

  lemma SameAverage(a: Index, b: Index)
    requires |a.store.docs| == |b.store.docs| && a.totalTerms == b.totalTerms
    ensures a.AverageDocLength() == b.AverageDocLength()
  {
  }

  lemma SameEntryForUrl(a: Index, b: Index, url: bytes)
    requires a.Valid() && b.Valid()
    requires a.store.Contents() == b.store.Contents()
    requires url in a.store.urlToId && url in b.store.urlToId
    ensures SameEntry(a, b, url)
  {
    var i, j := a.store.urlToId[url], b.store.urlToId[url];
    assert a.store.Contents()[url] == a.store.docs[i].Content();
    assert b.store.Contents()[url] == b.store.docs[j].Content();
    var bag := Bags<nat>(a.store.docs)[i];
    assert Bags<nat>(b.store.docs)[j] == bag;
    forall term, freq
      ensures Posting(i, freq) in Lookup(a.postings, term) <==> Posting(j, freq) in Lookup(b.postings, term)
    {
      PostingMember(Lookup(a.postings, term), Weights(Bags<nat>(a.store.docs), term), Posting(i, freq));
      PostingMember(Lookup(b.postings, term), Weights(Bags<nat>(b.store.docs), term), Posting(j, freq));
    }
  }

  /** A list of all stored documents, each once, in any order. */
  ghost predicate Lists(ds: seq<Document>, docs: map<nat, Document>) {
    forall d: Document :: multiset(ds)[d] == if d.id in docs && docs[d.id] == d then 1 else 0
  }

  lemma ListedDocuments(ds: seq<Document>, st: Store)
    requires st.Valid() && Lists(ds, st.docs)
    ensures forall i | 0 <= i < |ds| :: ds[i].id in st.docs && st.docs[ds[i].id] == ds[i]
    ensures forall id | id in st.docs :: st.docs[id] in ds
    ensures DistinctUrls(ds)
  {
    forall i | 0 <= i < |ds|
      ensures ds[i].id in st.docs && st.docs[ds[i].id] == ds[i]
    {
      MemberCounts(ds, i);
    }
    forall id | id in st.docs
      ensures st.docs[id] in ds
    {
      assert multiset(ds)[st.docs[id]] == 1;
      assert st.docs[id] in multiset(ds);
    }
    forall i, j | 0 <= i < j < |ds|
      ensures ds[i].url != ds[j].url
    {
      assert multiset(ds)[ds[i]] == 1;
      if ds[i] == ds[j] {
        CountedTwice(ds, i, j);
      }
    }
  }

  /** `ds` is some listing of the stored documents, with or without the ids they had. */
  ghost predicate Survivors(ds: seq<Document>, listed: seq<Document>, st: Store) {
    && Lists(listed, st.docs)
    && |ds| == |listed|
    && forall i | 0 <= i < |ds| :: ds[i].Content() == listed[i].Content()
  }

  lemma SameContentSameUrl(d: Document, e: Document)
    requires d.Content() == e.Content()
    ensures d.url == e.url
  {
  }

  /** Storing the survivors from scratch stores the same contents. */
  lemma SurvivorsContents(st: Store, listed: seq<Document>, ds: seq<Document>)
    requires st.Valid() && Survivors(ds, listed, st)
    ensures EMPTY.PutAll(ds).Valid()
    ensures EMPTY.PutAll(ds).Contents() == st.Contents()
  {
    ListedDocuments(listed, st);
    forall i | 0 <= i < |ds|
      ensures ds[i].url == listed[i].url
    {
      SameContentSameUrl(ds[i], listed[i]);
    }
    SurvivorsStored(st, listed, ds);
    PutAllContents(ds);
    SameDocumentsStored(EMPTY.PutAll(ds).Contents(), st.Contents(), ds);
  }

  lemma SurvivorsStored(st: Store, listed: seq<Document>, ds: seq<Document>)
    requires st.Valid() && |ds| == |listed|
    requires forall i | 0 <= i < |ds| :: ds[i].Content() == listed[i].Content() && ds[i].url == listed[i].url
    requires forall i | 0 <= i < |listed| :: listed[i].id in st.docs && st.docs[listed[i].id] == listed[i]
    requires forall id | id in st.docs :: st.docs[id] in listed
    ensures StoresExactly(st.Contents(), ds)
  {
  }

  /**
    Whatever operations led to an index, it is equivalent to one built from scratch by adding its
    surviving documents in any order.
    */
  lemma RebuildingIsEquivalent(ix: Index, listed: seq<Document>, ds: seq<Document>, rebuilt: Index)
    requires ix.Valid() && rebuilt.Valid()
    requires Survivors(ds, listed, ix.store)
    requires rebuilt.store == EMPTY.PutAll(ds)
    ensures Equivalent(ix, rebuilt)
  {
    SurvivorsContents(ix.store, listed, ds);
    ContentsDetermineIndex(ix, rebuilt);
  }
}
