/**
  Bags of terms and the lists that hold them. Documents are named by an arbitrary key here: by id in
  the index itself, by URL when two indexes are compared.
  */
module TermWeights {
  import opened Bytes
  import opened Multisets

  type Bag = multiset<bytes>

  datatype Posting = Posting(docId: nat, termFreq: nat)

  /** The weight of a term in each document that has it. */
  ghost function Weights<K>(bags: map<K, Bag>, term: bytes): map<K, nat> {
    map k | k in bags && term in bags[k] :: bags[k][term]
  }

  ghost function Lengths<K>(bags: map<K, Bag>): map<K, nat> {
    map k | k in bags :: |bags[k]|
  }

  ghost function Total<K>(lengths: map<K, nat>): nat {
    if lengths == map[] then 0 else var k :| k in lengths; lengths[k] + Total(lengths - {k})
  }

  lemma {:induction false} TotalSplit<K>(lengths: map<K, nat>, key: K)
    requires key in lengths
    ensures Total(lengths) == lengths[key] + Total(lengths - {key})
    decreases |lengths|
  {
    var k :| k in lengths && Total(lengths) == lengths[k] + Total(lengths - {k});
    if k != key {
      assert (lengths - {k}) - {key} == (lengths - {key}) - {k};
      TotalSplit(lengths - {k}, key);
      TotalSplit(lengths - {key}, k);
    }
  }

  lemma CardinalityMinus<K, V>(m: map<K, V>, k: K)
    requires k in m
    ensures |m| == |m - {k}| + 1
  {
  }

  lemma {:induction false} SubmapCardinality<K, V, W>(a: map<K, V>, b: map<K, W>)
    requires a.Keys <= b.Keys
    ensures |a| <= |b|
    decreases |a|
  {
    if a != map[] {
      var k :| k in a;
      CardinalityMinus(a, k);
      CardinalityMinus(b, k);
      SubmapCardinality(a - {k}, b - {k});
    }
  }

  // ----- Lists of entries -----

  /** A posting list with one entry for each pair of `weights` and no other, in any order. */
  ghost predicate Holds(list: seq<Posting>, weights: map<nat, nat>) {
    forall p: Posting ::
      multiset(list)[p] == if p.docId in weights && weights[p.docId] == p.termFreq then 1 else 0
  }

  /** A term list with one entry for each term of the bag and no other, in any order. */
  ghost predicate HoldsTerms(list: seq<(bytes, nat)>, bag: Bag) {
    forall e: (bytes, nat) :: multiset(list)[e] == if e.0 in bag && bag[e.0] == e.1 then 1 else 0
  }

  /** No document appears twice in a posting list. */
  lemma PostingsDistinct(list: seq<Posting>, weights: map<nat, nat>, i: nat, j: nat)
    requires Holds(list, weights)
    requires i < j < |list|
    ensures list[i].docId != list[j].docId
  {
    MemberCounts(list, i);
    MemberCounts(list, j);
    if list[i] == list[j] {
      CountedTwice(list, i, j);
    }
  }

  lemma PostingMember(list: seq<Posting>, weights: map<nat, nat>, p: Posting)
    requires Holds(list, weights)
    ensures p in list <==> p.docId in weights && weights[p.docId] == p.termFreq
  {
  }

  lemma {:induction false} HoldsCardinality(list: seq<Posting>, weights: map<nat, nat>)
    requires Holds(list, weights)
    ensures |list| == |weights|
    decreases |list|
  {
    if list == [] {
      assert forall id | id in weights :: multiset(list)[Posting(id, weights[id])] == 1;
      assert weights == map[];
    } else {
      var front, last := list[..|list| - 1], list[|list| - 1];
      MemberCounts(list, |list| - 1);
      CardinalityMinus(weights, last.docId);
      assert list == front + [last];
      AppendCounts(front, last);
      HoldsCardinality(front, weights - {last.docId});
    }
  }

  // ----- Renaming the documents -----

  /** `b` is `a` with every key renamed, `name` giving the old key for the new one. */
  ghost predicate Renamed<K, L, V>(a: map<K, V>, b: map<L, V>, name: map<L, K>) {
    && b.Keys <= name.Keys
    && (forall l | l in b :: name[l] in a && a[name[l]] == b[l])
    && (forall l, m | l in b && m in b && name[l] == name[m] :: l == m)
    && (forall k | k in a :: exists l :: l in b && name[l] == k)
  }

  lemma RenamedByInverse<K, L, V>(a: map<K, V>, b: map<L, V>, name: map<L, K>, back: map<K, L>)
    requires b.Keys == name.Keys
    requires forall l | l in b :: name[l] in a && a[name[l]] == b[l]
    requires forall l | l in b :: name[l] in back && back[name[l]] == l
    requires forall k | k in a :: k in back && back[k] in b && name[back[k]] == k
    ensures Renamed(a, b, name)
  {
  }

  lemma RenamedMinus<K, L, V>(a: map<K, V>, b: map<L, V>, name: map<L, K>, l: L)
    requires Renamed(a, b, name) && l in b
    ensures Renamed(a - {name[l]}, b - {l}, name)
  {
    forall k | k in a - {name[l]}
      ensures exists m :: m in b - {l} && name[m] == k
    {
      var m :| m in b && name[m] == k;
      assert m in b - {l};
    }
  }

  lemma {:induction false} RenamedTotal<K, L>(a: map<K, nat>, b: map<L, nat>, name: map<L, K>)
    requires Renamed(a, b, name)
    ensures Total(a) == Total(b)
    decreases |b|
  {
    if b == map[] {
      assert a == map[];
    } else {
      var l :| l in b;
      RenamedMinus(a, b, name, l);
      TotalSplit(a, name[l]);
      TotalSplit(b, l);
      CardinalityMinus(b, l);
      RenamedTotal(a - {name[l]}, b - {l}, name);
    }
  }

  lemma {:induction false} RenamedCardinality<K, L, V>(a: map<K, V>, b: map<L, V>, name: map<L, K>)
    requires Renamed(a, b, name)
    ensures |a| == |b|
    decreases |b|
  {
    if b == map[] {
      assert a == map[];
    } else {
      var l :| l in b;
      RenamedMinus(a, b, name, l);
      CardinalityMinus(a, name[l]);
      CardinalityMinus(b, l);
      RenamedCardinality(a - {name[l]}, b - {l}, name);
    }
  }

  /** Renaming the documents changes no document frequency and no total length. */
  lemma RenamedBags<K, L>(a: map<K, Bag>, b: map<L, Bag>, name: map<L, K>, term: bytes)
    requires Renamed(a, b, name)
    ensures |Weights(a, term)| == |Weights(b, term)|
    ensures Total(Lengths(a)) == Total(Lengths(b))
  {
    assert Renamed(Lengths(a), Lengths(b), name);
    RenamedTotal(Lengths(a), Lengths(b), name);
    assert Renamed(Weights(a, term), Weights(b, term), name);
    RenamedCardinality(Weights(a, term), Weights(b, term), name);
  }
}
