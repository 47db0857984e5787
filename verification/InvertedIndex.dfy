/**
  The inverted index of src/inverted_index.cpp with its fields updated in place. Where the source walks
  a hash map, the order is left open here: a loop takes the remaining keys in any order.
  */
module InvertedIndex {
  import opened Bytes
  import opened Multisets
  import opened TermWeights
  import opened IndexModel
  import Tokenizer

  /** A term-frequency map that counts exactly the terms of a bag. */
  ghost predicate Tallies(freqs: map<bytes, nat>, bag: Bag) {
    forall term :: (term in freqs <==> term in bag) && (term in freqs ==> freqs[term] == bag[term])
  }

  function CountIn(freqs: map<bytes, nat>, term: bytes): nat {
    if term in freqs then freqs[term] else 0
  }

  lemma CountedOne(freqs: map<bytes, nat>, bag: Bag, term: bytes)
    requires Tallies(freqs, bag)
    ensures Tallies(freqs[term := CountIn(freqs, term) + 1], bag + multiset{term})
  {
  }

  /** `indexText`: counts the tokens of one field on top of what was counted before. */
  method IndexText(text: bytes, freqs: map<bytes, nat>, ghost bag: Bag) returns (counted: map<bytes, nat>)
    requires Tallies(freqs, bag)
    ensures Tallies(counted, bag + multiset(Tokenizer.Tokens(text)))
  {
    hide Tallies, Tokenizer.Tokens;
    var tokens := Tokenizer.Tokenize(text);
    counted := freqs;
    assert bag + multiset(tokens[..0]) == bag;
    for i := 0 to |tokens|
      invariant Tallies(counted, bag + multiset(tokens[..i]))
    {
      CountedOne(counted, bag + multiset(tokens[..i]), tokens[i]);
      assert tokens[..i + 1] == tokens[..i] + [tokens[i]];
      assert bag + multiset(tokens[..i]) + multiset{tokens[i]} == bag + multiset(tokens[..i + 1]);
      counted := counted[tokens[i] := CountIn(counted, tokens[i]) + 1];
    }
    assert tokens[..|tokens|] == tokens;
  }

  /** Adds `factor` times every count of `extra` to `freqs`. */
  method MergeInto(freqs: map<bytes, nat>, extra: map<bytes, nat>, factor: nat) returns (merged: map<bytes, nat>)
    requires factor >= 1
    requires forall term | term in extra :: extra[term] > 0
    ensures merged.Keys == freqs.Keys + extra.Keys
    ensures forall term :: CountIn(merged, term) == CountIn(freqs, term) + factor * CountIn(extra, term)
  {
    merged := freqs;
    var rest := extra.Keys;
    while rest != {}
      invariant rest <= extra.Keys
      invariant merged.Keys == freqs.Keys + (extra.Keys - rest)
      invariant forall term ::
                  CountIn(merged, term) ==
                  CountIn(freqs, term) + if term in rest then 0 else factor * CountIn(extra, term)
      decreases rest
    {
      var term :| term in rest;
      merged := merged[term := CountIn(merged, term) + factor * extra[term]];
      rest := rest - {term};
    }
  }

  /** The weighted frequencies of a document: title tokens three times, all others once. */
  method WeighedTerms(d: Document) returns (freqs: map<bytes, nat>)
    ensures Tallies(freqs, TermBag(d))
  {
    hide Tokenizer.Tokens;
    ghost var title, snippet := multiset(Tokenizer.Tokens(d.title)), multiset(Tokenizer.Tokens(d.snippet));
    ghost var content := multiset(Tokenizer.Tokens(d.content));
    freqs := IndexText(d.title, map[], multiset{});
    var titleFreqs := IndexText(d.title, map[], multiset{});
    var body := IndexText(d.snippet, map[], multiset{});
    body := IndexText(d.content, body, multiset{} + snippet);
    var withBody := MergeInto(freqs, body, 1);
    var all := MergeInto(withBody, titleFreqs, 2);
    SumOfTallies(freqs, body, titleFreqs, withBody, all, title, snippet + content);
    freqs := all;
    assert title + title + title + snippet + content == title + (snippet + content) + title + title;
  }

  lemma SumOfTallies(freqs: map<bytes, nat>, body: map<bytes, nat>, titleFreqs: map<bytes, nat>,
                     withBody: map<bytes, nat>, all: map<bytes, nat>, title: Bag, rest: Bag)
    requires Tallies(freqs, multiset{} + title) && Tallies(titleFreqs, multiset{} + title)
    requires Tallies(body, multiset{} + rest)
    requires forall term :: CountIn(withBody, term) == CountIn(freqs, term) + 1 * CountIn(body, term)
    requires forall term :: CountIn(all, term) == CountIn(withBody, term) + 2 * CountIn(titleFreqs, term)
    requires all.Keys == freqs.Keys + body.Keys + titleFreqs.Keys
    ensures Tallies(all, title + rest + title + title)
  {
    forall term
      ensures CountIn(freqs, term) == title[term] == CountIn(titleFreqs, term)
      ensures CountIn(body, term) == rest[term]
    {
      assert (multiset{} + title)[term] == title[term];
      assert (multiset{} + rest)[term] == rest[term];
    }
    assert forall term :: CountIn(all, term) == (title + rest + title + title)[term];
    assert forall term :: term in all <==> term in freqs || term in body;
  }

  // ----- Removing a document from the posting lists -----

  function Without(list: seq<Posting>, id: nat): seq<Posting> {
    if list == [] then []
    else Without(list[..|list| - 1], id)
         + if list[|list| - 1].docId == id then [] else [list[|list| - 1]]
  }

  lemma {:induction false} WithoutCounts(list: seq<Posting>, id: nat)
    ensures forall p :: multiset(Without(list, id))[p] == if p.docId == id then 0 else multiset(list)[p]
  {
    if list != [] {
      var front, last := list[..|list| - 1], list[|list| - 1];
      WithoutCounts(front, id);
      assert list == front + [last];
      AppendCounts(front, last);
      AppendCounts(Without(front, id), last);
      assert Without(front, id) + [] == Without(front, id);
    }
  }

  /** Dropping a document's postings leaves a list of the other documents. */
  lemma WithoutHolds(list: seq<Posting>, weights: map<nat, nat>, id: nat)
    requires Holds(list, weights)
    ensures Holds(Without(list, id), weights - {id})
  {
    WithoutCounts(list, id);
  }

  predicate Listed(terms: seq<(bytes, nat)>, term: bytes) {
    exists i | 0 <= i < |terms| :: terms[i].0 == term
  }

  /** What removing `id` from the lists of `terms` makes of the list of `term`. */
  function Trimmed(postings: map<bytes, seq<Posting>>, id: nat, terms: seq<(bytes, nat)>, term: bytes): seq<Posting> {
    if Listed(terms, term) then Without(Lookup(postings, term), id) else Lookup(postings, term)
  }

  lemma {:induction false} WithoutTwice(list: seq<Posting>, id: nat)
    ensures Without(Without(list, id), id) == Without(list, id)
  {
    if list != [] {
      var front, last := list[..|list| - 1], list[|list| - 1];
      WithoutTwice(front, id);
      var kept := Without(front, id);
      if last.docId == id {
        assert kept + [] == kept;
      } else {
        assert (kept + [last])[..|kept|] == kept;
      }
    }
  }

  ghost predicate TrimmedBy(before: map<bytes, seq<Posting>>, after: map<bytes, seq<Posting>>,
                            id: nat, terms: seq<(bytes, nat)>)
  {
    && (forall term | term in after :: after[term] != [])
    && (forall term :: Lookup(after, term) == Trimmed(before, id, terms, term))
  }

  lemma TrimStart(postings: map<bytes, seq<Posting>>, id: nat)
    requires forall term | term in postings :: postings[term] != []
    ensures TrimmedBy(postings, postings, id, [])
  {
  }

  /** One round of `removePostings`: the list of the next term loses the document's postings. */
  lemma TrimNext(before: map<bytes, seq<Posting>>, after: map<bytes, seq<Posting>>,
                 id: nat, terms: seq<(bytes, nat)>, i: nat)
    requires i < |terms| && TrimmedBy(before, after, id, terms[..i])
    ensures var term := terms[i].0;
            var list := Without(Lookup(after, term), id);
            && (term !in after ==> TrimmedBy(before, after, id, terms[..i + 1]))
            && (term in after && list == [] ==> TrimmedBy(before, after - {term}, id, terms[..i + 1]))
            && (term in after && list != [] ==> TrimmedBy(before, after[term := list], id, terms[..i + 1]))
  {
    var term := terms[i].0;
    var list := Without(Lookup(after, term), id);
    var next := if term !in after then after else if list == [] then after - {term} else after[term := list];
    forall t
      ensures Lookup(next, t) == Trimmed(before, id, terms[..i + 1], t)
    {
      assert Lookup(next, t) == if t == term then list else Lookup(after, t);
      assert Lookup(after, t) == Trimmed(before, id, terms[..i], t);
      ListedNext(terms, i, t);
      WithoutTwice(Lookup(before, t), id);
    }
  }

  /** Once trimmed of a document's own terms, the lists no longer mention it. */
  lemma TrimmedMatch(postings: map<bytes, seq<Posting>>, trimmed: map<bytes, seq<Posting>>,
                     bags: map<nat, Bag>, id: nat, terms: seq<(bytes, nat)>)
    requires PostingsMatch(postings, bags) && id in bags && HoldsTerms(terms, bags[id])
    requires TrimmedBy(postings, trimmed, id, terms)
    ensures PostingsMatch(trimmed, bags - {id})
  {
    forall term
      ensures Holds(Lookup(trimmed, term), Weights(bags - {id}, term))
    {
      assert Holds(Lookup(postings, term), Weights(bags, term));
      assert Weights(bags - {id}, term) == Weights(bags, term) - {id};
      assert Lookup(trimmed, term) == Trimmed(postings, id, terms, term);
      if Listed(terms, term) {
        WithoutHolds(Lookup(postings, term), Weights(bags, term), id);
      } else {
        UnlistedTerm(terms, bags[id], term);
        assert Weights(bags, term) - {id} == Weights(bags, term);
      }
    }
  }

  lemma UnlistedTerm(terms: seq<(bytes, nat)>, bag: Bag, term: bytes)
    requires HoldsTerms(terms, bag) && !Listed(terms, term)
    ensures term !in bag
  {
    assert term in bag ==> multiset(terms)[(term, bag[term])] == 1;
    assert term in bag ==> (term, bag[term]) in terms;
  }

  // ----- Adding a document to the posting lists -----

  /** `bags` with one more document. */
  lemma PushedHolds(list: seq<Posting>, bags: map<nat, Bag>, id: nat, bag: Bag, term: bytes)
    requires Holds(list, Weights(bags, term)) && id !in bags
    ensures term in bag ==> Holds(list + [Posting(id, bag[term])], Weights(bags[id := bag], term))
    ensures term !in bag ==> Holds(list, Weights(bags[id := bag], term))
  {
    var w := Weights(bags, term);
    if term in bag {
      assert Weights(bags[id := bag], term) == w[id := bag[term]];
      AppendCounts(list, Posting(id, bag[term]));
    } else {
      assert Weights(bags[id := bag], term) == w;
    }
  }

  lemma AppendTerm(list: seq<(bytes, nat)>, bag: Bag, term: bytes, freq: nat)
    requires HoldsTerms(list, bag) && term !in bag && freq > 0
    ensures HoldsTerms(list + [(term, freq)], bag[term := freq])
  {
  }

  /** Both kinds of lists while a document is being entered: it counts as having the terms done so far. */
  ghost predicate Entering(postings: map<bytes, seq<Posting>>, docTerms: map<nat, seq<(bytes, nat)>>,
                           bags: map<nat, Bag>, id: nat, done: Bag)
  {
    PostingsMatch(postings, bags[id := done]) && TermsMatch(docTerms, bags[id := done])
  }

  lemma EnterStart(postings: map<bytes, seq<Posting>>, docTerms: map<nat, seq<(bytes, nat)>>,
                   bags: map<nat, Bag>, id: nat)
    requires PostingsMatch(postings, bags) && TermsMatch(docTerms, bags) && id !in bags
    ensures Entering(postings, docTerms, bags, id, multiset{})
  {
    forall term
      ensures Holds(Lookup(postings, term), Weights(bags[id := multiset{}], term))
    {
      assert Holds(Lookup(postings, term), Weights(bags, term));
      PushedHolds(Lookup(postings, term), bags, id, multiset{}, term);
    }
  }

  lemma EnterDone(postings: map<bytes, seq<Posting>>, docTerms: map<nat, seq<(bytes, nat)>>,
                  bags: map<nat, Bag>, id: nat, bag: Bag)
    requires Entering(postings, docTerms, bags, id, bag)
    ensures PostingsMatch(postings, bags[id := bag]) && TermsMatch(docTerms, bags[id := bag])
  {
  }

  /** One more term entered for the document that is being added. */
  lemma EnterNext(postings: map<bytes, seq<Posting>>, docTerms: map<nat, seq<(bytes, nat)>>,
                  bags: map<nat, Bag>, id: nat, done: Bag, term: bytes, freq: nat)
    requires id !in bags && term !in done && freq > 0
    requires Entering(postings, docTerms, bags, id, done)
    ensures Entering(postings[term := Lookup(postings, term) + [Posting(id, freq)]],
                     docTerms[id := TermList(docTerms, id) + [(term, freq)]],
                     bags, id, done[term := freq])
  {
    EnterPosting(postings, bags, id, done, term, freq);
    var terms, more := docTerms[id := TermList(docTerms, id) + [(term, freq)]], done[term := freq];
    assert HoldsTerms(TermList(docTerms, id), bags[id := done][id]);
    AppendTerm(TermList(docTerms, id), done, term, freq);
    forall k | k in bags[id := more]
      ensures HoldsTerms(TermList(terms, k), bags[id := more][k])
    {
      assert HoldsTerms(TermList(docTerms, k), bags[id := done][k]);
    }
  }

  lemma EnterPosting(postings: map<bytes, seq<Posting>>, bags: map<nat, Bag>, id: nat, done: Bag,
                     term: bytes, freq: nat)
    requires id !in bags && PostingsMatch(postings, bags[id := done])
    requires term !in done && freq > 0
    ensures PostingsMatch(postings[term := Lookup(postings, term) + [Posting(id, freq)]],
                          bags[id := done[term := freq]])
  {
    var after, more := postings[term := Lookup(postings, term) + [Posting(id, freq)]], done[term := freq];
    forall t
      ensures Holds(Lookup(after, t), Weights(bags[id := more], t))
    {
      assert Holds(Lookup(postings, t), Weights(bags[id := done], t));
      if t == term {
        assert Weights(bags[id := done], t) == Weights(bags, t);
        PushedHolds(Lookup(postings, t), bags, id, more, t);
      } else {
        assert more[t] == done[t];
        assert Weights(bags[id := more], t) == Weights(bags[id := done], t);
      }
    }
  }

  lemma TotalWith(lengths: map<nat, nat>, id: nat, n: nat)
    requires id !in lengths
    ensures Total(lengths[id := n]) == Total(lengths) + n
  {
    TotalSplit(lengths[id := n], id);
    assert lengths[id := n] - {id} == lengths;
  }

  lemma LengthsMinus(bags: map<nat, Bag>, id: nat)
    ensures Lengths(bags - {id}) == Lengths(bags) - {id}
  {
  }

  lemma LengthsPut(bags: map<nat, Bag>, id: nat, bag: Bag)
    ensures Lengths(bags[id := bag]) == Lengths(bags)[id := |bag|]
  {
  }

  lemma BagsMinus(docs: map<nat, Document>, id: nat)
    ensures Bags<nat>(docs - {id}) == Bags<nat>(docs) - {id}
    ensures id !in docs ==> Bags<nat>(docs) - {id} == Bags<nat>(docs)
  {
    hide TermBag;
  }

  lemma BagsPut(docs: map<nat, Document>, id: nat, d: Document)
    ensures Bags<nat>(docs[id := d]) == (Bags<nat>(docs) - {id})[id := TermBag(d)]
  {
    hide TermBag;
    var a, b := Bags<nat>(docs[id := d]), (Bags<nat>(docs) - {id})[id := TermBag(d)];
    assert a.Keys == b.Keys;
    forall k | k in a
      ensures a[k] == b[k]
    {
      assert k != id ==> docs[id := d][k] == docs[k];
    }
  }

  lemma NoListIsEmpty(ix: Index)
    requires ix.Valid()
    ensures forall term | term in ix.postings :: ix.postings[term] != []
  {
  }

  lemma BagsStored(docs: map<nat, Document>, id: nat, d: Document)
    ensures Bags<nat>(docs[id := d.(id := id)]) == (Bags<nat>(docs) - {id})[id := TermBag(d)]
  {
    SameBagUnderId(d, id);
    BagsPut(docs, id, d.(id := id));
  }

  lemma TermListHolds(ix: Index, id: nat)
    requires ix.Valid() && id in ix.store.docs
    ensures HoldsTerms(TermList(ix.docTerms, id), Bags<nat>(ix.store.docs)[id])
  {
  }

  lemma StoredUnder(st: Store, url: bytes)
    requires st.Valid()
    ensures url in st.urlToId ==> st.urlToId[url] in st.docs
    ensures url !in st.urlToId ==> st.nextId !in st.docs
  {
  }

  lemma TermsMinus(docTerms: map<nat, seq<(bytes, nat)>>, bags: map<nat, Bag>, id: nat)
    requires TermsMatch(docTerms, bags)
    ensures TermsMatch(docTerms - {id}, bags - {id})
  {
  }

  lemma EmptyIsValid(ix: Index)
    requires ix.store == EMPTY && ix.postings == map[] && ix.docTerms == map[]
    requires ix.docLengths == map[] && ix.totalTerms == 0
    ensures ix.Valid()
  {
    assert Bags<nat>(ix.store.docs) == map[];
    forall term
      ensures Holds(Lookup(ix.postings, term), Weights(Bags<nat>(ix.store.docs), term))
    {
      assert Weights(Bags<nat>(ix.store.docs), term) == map[];
    }
  }

  lemma ListedNext(terms: seq<(bytes, nat)>, i: nat, t: bytes)
    requires i < |terms|
    ensures Listed(terms[..i + 1], t) <==> Listed(terms[..i], t) || t == terms[i].0
  {
  }

  /** `remove_if` on one posting list. */
  method RemoveIf(list: seq<Posting>, id: nat) returns (kept: seq<Posting>)
    ensures kept == Without(list, id)
  {
    kept := [];
    for i := 0 to |list|
      invariant kept == Without(list[..i], id)
    {
      assert list[..i + 1][..i] == list[..i];
      if list[i].docId != id {
        kept := kept + [list[i]];
      }
    }
    assert list[..|list|] == list;
  }

  lemma SameBagUnderId(d: Document, id: nat)
    ensures TermBag(d.(id := id)) == TermBag(d)
  {
  }

  /** The length of a document: the sum of its frequencies. */
  method SumOf(freqs: map<bytes, nat>, ghost bag: Bag) returns (sum: nat)
    requires Tallies(freqs, bag)
    ensures sum == |bag|
  {
    sum := 0;
    var rest := freqs.Keys;
    ghost var left := bag;
    while rest != {}
      invariant rest <= freqs.Keys
      invariant forall term :: left[term] == if term in rest then bag[term] else 0
      invariant sum + |left| == |bag|
      decreases rest
    {
      var term :| term in rest;
      sum := sum + freqs[term];
      left := left[term := 0];
      rest := rest - {term};
    }
    assert left == multiset{};
  }

  class InvertedIndex {
    var postings: map<bytes, seq<Posting>>
    var urlToId: map<bytes, nat>
    var docs: map<nat, Document>
    var docTerms: map<nat, seq<(bytes, nat)>>
    var docLengths: map<nat, nat>
    var nextId: nat
    var totalTerms: nat

    ghost function View(): Index
      reads this
    {
      Index(Store(docs, urlToId, nextId), postings, docTerms, docLengths, totalTerms)
    }

    ghost predicate Valid()
      reads this
    {
      View().Valid()
    }

    constructor ()
      ensures Valid() && View().store == EMPTY
    {
      postings, urlToId, docs, docTerms, docLengths := map[], map[], map[], map[], map[];
      nextId, totalTerms := 1, 0;
      new;
      EmptyIsValid(View());
    }

    /** `removePostings` */
    method RemovePostings(id: nat, terms: seq<(bytes, nat)>)
      requires forall term | term in postings :: postings[term] != []
      modifies this`postings
      ensures TrimmedBy(old(postings), postings, id, terms)
    {
      TrimStart(postings, id);
      for i := 0 to |terms|
        invariant TrimmedBy(old(postings), postings, id, terms[..i])
      {
        var term := terms[i].0;
        TrimNext(old(postings), postings, id, terms, i);
        if term in postings {
          var list := RemoveIf(postings[term], id);
          if list == [] {
            postings := postings - {term};
          } else {
            postings := postings[term := list];
          }
        }
      }
      assert terms[..|terms|] == terms;
    }

    /** The shared first part of replacing and removing: takes a stored document out of the lists. */
    method Unindex(id: nat)
      requires Valid() && id in docs
      modifies this`postings, this`totalTerms, this`docLengths, this`docTerms
      ensures PostingsMatch(postings, Bags<nat>(docs) - {id})
      ensures TermsMatch(docTerms, Bags<nat>(docs) - {id})
      ensures docLengths == Lengths(Bags<nat>(docs) - {id})
      ensures totalTerms == Total(docLengths)
    {
      hide TermBag, PostingsMatch, TermsMatch, TrimmedBy, Store.Valid;
      NoListIsEmpty(View());
      ghost var before, bags := postings, Bags<nat>(docs);
      TermListHolds(View(), id);
      RemovePostings(id, TermList(docTerms, id));
      TrimmedMatch(before, postings, bags, id, TermList(docTerms, id));
      TotalSplit(docLengths, id);
      LengthsMinus(bags, id);
      TermsMinus(docTerms, bags, id);
      totalTerms := totalTerms - docLengths[id];
      docLengths := docLengths - {id};
      docTerms := docTerms - {id};
    }

    /** The second part of adding: enters a document's terms, weights and length. */
    method Enter(id: nat, freqs: map<bytes, nat>, ghost bags: map<nat, Bag>, ghost bag: Bag,
                 ghost all: map<nat, Bag>)
      requires Tallies(freqs, bag) && id !in bags && all == bags[id := bag]
      requires PostingsMatch(postings, bags) && TermsMatch(docTerms, bags)
      requires docLengths == Lengths(bags) && totalTerms == Total(docLengths)
      modifies this`postings, this`totalTerms, this`docLengths, this`docTerms
      ensures PostingsMatch(postings, all)
      ensures TermsMatch(docTerms, all)
      ensures docLengths == Lengths(all)
      ensures totalTerms == Total(docLengths)
    {
      hide TermBag;
      hide PostingsMatch, TermsMatch, Entering;
      EnterStart(postings, docTerms, bags, id);
      var rest := freqs.Keys;
      ghost var done: Bag := multiset{};
      while rest != {}
        invariant rest <= freqs.Keys
        invariant forall term :: done[term] == if term in rest then 0 else bag[term]
        invariant Entering(postings, docTerms, bags, id, done)
        invariant totalTerms == old(totalTerms) + |done|
        invariant docLengths == old(docLengths)
        decreases rest
      {
        var term :| term in rest;
        var freq := freqs[term];
        EnterNext(postings, docTerms, bags, id, done, term, freq);
        postings := postings[term := Lookup(postings, term) + [Posting(id, freq)]];
        docTerms := docTerms[id := TermList(docTerms, id) + [(term, freq)]];
        totalTerms := totalTerms + freq;
        done := done[term := freq];
        rest := rest - {term};
      }
      assert done == bag;
      EnterDone(postings, docTerms, bags, id, bag);
      var length := SumOf(freqs, bag);
      TotalWith(docLengths, id, length);
      docLengths := docLengths[id := length];
      LengthsPut(bags, id, bag);
    }

    /**
      The first part of adding: the id to store under. A URL seen before keeps its id, and its old
      document leaves the lists; a new URL gets the next id.
      */
    method ClaimId(url: bytes) returns (id: nat)
      requires Valid()
      modifies this`postings, this`totalTerms, this`docLengths, this`docTerms, this`urlToId, this`nextId
      ensures id == old(View().store).IdFor(url)
      ensures urlToId == old(urlToId)[url := id]
      ensures nextId == if url in old(urlToId) then old(nextId) else old(nextId) + 1
      ensures PostingsMatch(postings, Bags<nat>(docs) - {id}) && TermsMatch(docTerms, Bags<nat>(docs) - {id})
      ensures docLengths == Lengths(Bags<nat>(docs) - {id}) && totalTerms == Total(docLengths)
    {
      hide TermBag, PostingsMatch, TermsMatch, Lengths, Total, Store.Valid;
      StoredUnder(View().store, url);
      if url in urlToId {
        id := urlToId[url];
        Unindex(id);
      } else {
        id := nextId;
        nextId := nextId + 1;
        urlToId := urlToId[url := id];
        BagsMinus(docs, id);
      }
    }

    /** `addDocument`: adds a document, or replaces the one stored under its URL. */
    method AddDocument(d: Document) returns (id: nat)
      requires Valid()
      modifies this
      ensures Valid()
      ensures View().store == old(View().store).Put(d)
      ensures id == old(View().store).IdFor(d.url)
    {
      hide TermBag, Bags, PostingsMatch, TermsMatch, Lengths, Total, Store.Valid;
      PutKeepsValid(View().store, d);
      id := ClaimId(d.url);
      var freqs := WeighedTerms(d);
      BagsStored(docs, id, d);
      Enter(id, freqs, Bags<nat>(docs) - {id}, TermBag(d), Bags<nat>(docs[id := d.(id := id)]));
      docs := docs[id := d.(id := id)];
    }

    /** `removeDocument`: removes a document by id, or does nothing when the id is unknown. */
    method RemoveDocument(id: nat)
      requires Valid()
      modifies this
      ensures Valid()
      ensures View().store == old(View().store).Drop(id)
    {
      hide TermBag, PostingsMatch, TermsMatch, Lengths, Total, Store.Valid;
      if id !in docs {
        return;
      }
      ghost var after := View().store.Drop(id);
      DropKeepsValid(View().store, id);
      BagsMinus(docs, id);
      Unindex(id);
      urlToId := urlToId - {docs[id].url};
      docs := docs - {id};
      assert View().store == after;
    }

    /** `clear` */
    method Clear()
      modifies this
      ensures Valid() && View().store == EMPTY
    {
      postings, urlToId, docs, docTerms, docLengths := map[], map[], map[], map[], map[];
      nextId, totalTerms := 1, 0;
      EmptyIsValid(View());
    }

    /** `replaceAll`: clears the index and adds the documents in order, numbering ids afresh. */
    method ReplaceAll(ds: seq<Document>)
      modifies this
      ensures Valid()
      ensures View().store == EMPTY.PutAll(ds)
    {
      hide Index.Valid, Store.Valid, Store.Put;
      Clear();
      for i := 0 to |ds|
        invariant Valid()
        invariant View().store == EMPTY.PutAll(ds[..i])
      {
        var _ := AddDocument(ds[i]);
        assert ds[..i + 1][..i] == ds[..i];
      }
      assert ds[..|ds|] == ds;
    }

    method Perform(op: Operation)
      requires Valid()
      modifies this
      ensures Valid()
      ensures View().store == Apply(old(View().store), op)
    {
      hide Index.Valid, Store.Put, Store.Drop;
      match op
      case Add(d) => var _ := AddDocument(d);
      case Remove(id) => RemoveDocument(id);
      case Clear => Clear();
      case ReplaceAll(ds) => ReplaceAll(ds);
    }

    /** `allDocuments`: every stored document once, in some order. */
    method AllDocuments() returns (ds: seq<Document>)
      requires Valid()
      ensures Lists(ds, docs)
    {
      ds := [];
      var rest := docs.Keys;
      while rest != {}
        invariant rest <= docs.Keys
        invariant forall d: Document ::
                    multiset(ds)[d] == if d.id in docs && d.id !in rest && docs[d.id] == d then 1 else 0
        decreases rest
      {
        var id :| id in rest;
        AppendCounts(ds, docs[id]);
        ds := ds + [docs[id]];
        rest := rest - {id};
      }
    }

    /** `averageDocLength` */
    method AverageDocLength() returns (average: real)
      requires Valid()
      ensures average == View().AverageDocLength()
    {
      if docs == map[] {
        return 0.0;
      }
      average := totalTerms as real / |docs| as real;
    }
  }

  /** A fresh index taken through any sequence of operations. */
  method Replay(ops: seq<Operation>) returns (index: InvertedIndex)
    ensures fresh(index) && index.Valid()
    ensures index.View().store == History(ops)
  {
    hide Index.Valid, Apply;
    index := new InvertedIndex();
    for i := 0 to |ops|
      invariant fresh(index) && index.Valid()
      invariant index.View().store == History(ops[..i])
    {
      index.Perform(ops[i]);
      assert ops[..i + 1][..i] == ops[..i];
    }
    assert ops[..|ops|] == ops;
  }
}
