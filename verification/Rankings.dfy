/** Results of the same query over two indexes whose documents differ only in their ids. */
module Rankings {
  import opened TermWeights
  import opened IndexModel
  import opened Bm25

  /** Each match is a stored document under its own id. */
  ghost predicate AreStored(matching: map<nat, real>, docs: map<nat, Document>) {
    forall id | id in matching :: id in docs && docs[id].id == id
  }

  ghost function Ids(results: seq<ScoredDocument>): set<nat> {
    set i | 0 <= i < |results| :: results[i].doc.id
  }

  lemma {:induction false} IdCount(results: seq<ScoredDocument>)
    ensures |Ids(results)| <= |results|
    ensures (forall i, j | 0 <= i < j < |results| :: results[i].doc.id != results[j].doc.id) ==>
              |Ids(results)| == |results|
  {
    if results != [] {
      var n := |results| - 1;
      var front, last := results[..n], results[n].doc.id;
      IdCount(front);
      assert Ids(results) == Ids(front) + {last};
    }
  }

  /** Ranked matches are different documents. */
  lemma RankedAreDistinct(
    results: seq<ScoredDocument>, matching: map<nat, real>, docs: map<nat, Document>, i: nat, j: nat)
    requires Ranked(results) && AreMatches(results, matching, docs) && i < j < |results|
    ensures results[i].doc.id != results[j].doc.id
  {
    assert RanksBefore(results[i], results[j]);
  }

  ghost function Image(ids: set<nat>, name: map<nat, nat>): set<nat>
    requires ids <= name.Keys
  {
    set l | l in ids :: name[l]
  }

  lemma {:induction false} ImageCount(ids: set<nat>, name: map<nat, nat>)
    requires ids <= name.Keys
    ensures |Image(ids, name)| <= |ids|
    decreases |ids|
  {
    if ids != {} {
      var l :| l in ids;
      ImageCount(ids - {l}, name);
      assert Image(ids, name) == Image(ids - {l}, name) + {name[l]};
    }
  }

  lemma {:induction false} SubsetCount<T>(a: set<T>, b: set<T>)
    requires a <= b
    ensures |a| <= |b|
    decreases |a|
  {
    if a != {} {
      var x :| x in a;
      SubsetCount(a - {x}, b - {x});
    }
  }

  /** The matches that score higher than the result at position `i` stand before it. */
  lemma HigherStandBefore(
    results: seq<ScoredDocument>, matching: map<nat, real>, docs: map<nat, Document>, limit: nat, i: nat, id: nat)
    requires IsTop(results, matching, docs, limit) && AreStored(matching, docs) && i < |results|
    requires id in matching && matching[id] > results[i].score
    ensures id in Ids(results[..i])
  {
    assert Includes(results, id);
    var j :| 0 <= j < |results| && results[j].doc.id == id;
    assert results[j].score == matching[id];
    assert j < i;
    assert results[..i][j] == results[j];
  }

  /** The score at a position cannot be higher than in the list of the renamed documents. */
  lemma ScoreIsNoHigher(
    a: seq<ScoredDocument>, b: seq<ScoredDocument>, ma: map<nat, real>, mb: map<nat, real>,
    da: map<nat, Document>, db: map<nat, Document>, limit: nat, name: map<nat, nat>, i: nat)
    requires IsTop(a, ma, da, limit) && IsTop(b, mb, db, limit) && AreStored(ma, da) && AreStored(mb, db)
    requires Renamed(ma, mb, name) && i < |a| && i < |b|
    ensures a[i].score <= b[i].score
  {
    if a[i].score > b[i].score {
      hide IsTop;
      var higher := set l | l in mb && mb[l] > b[i].score;
      var upTo := a[..i + 1];
      forall l | l in higher
        ensures l in Ids(b[..i])
      {
        HigherStandBefore(b, mb, db, limit, i, l);
      }
      forall k | k in Ids(upTo)
        ensures k in Image(higher, name)
      {
        FirstScoreHigher(a, ma, da, limit, i, k);
        var l :| l in mb && name[l] == k;
      }
      PrefixIdCount(a, ma, da, limit, i + 1);
      IdCount(b[..i]);
      ImageCount(higher, name);
      SubsetCount(Ids(upTo), Image(higher, name));
      SubsetCount(higher, Ids(b[..i]));
    }
  }

  lemma FirstScoreHigher(
    a: seq<ScoredDocument>, ma: map<nat, real>, da: map<nat, Document>, limit: nat, i: nat, k: nat)
    requires IsTop(a, ma, da, limit) && i < |a| && k in Ids(a[..i + 1])
    ensures k in ma && ma[k] >= a[i].score
  {
    var j :| 0 <= j <= i && a[..i + 1][j].doc.id == k;
    assert a[..i + 1][j] == a[j];
    assert j < i ==> RanksBefore(a[j], a[i]);
  }

  lemma PrefixIdCount(a: seq<ScoredDocument>, ma: map<nat, real>, da: map<nat, Document>, limit: nat, n: nat)
    requires IsTop(a, ma, da, limit) && n <= |a|
    ensures |Ids(a[..n])| == n
  {
    forall i, j | 0 <= i < j < n
      ensures a[..n][i].doc.id != a[..n][j].doc.id
    {
      RankedAreDistinct(a, ma, da, i, j);
    }
    IdCount(a[..n]);
  }

  ghost function NewName(mb: map<nat, real>, name: map<nat, nat>, k: nat): nat
    requires exists l :: l in mb && l in name && name[l] == k
  {
    var l :| l in mb && l in name && name[l] == k;
    l
  }

  /** Renaming can be undone. */
  lemma RenamedBack(ma: map<nat, real>, mb: map<nat, real>, name: map<nat, nat>) returns (back: map<nat, nat>)
    requires Renamed(ma, mb, name)
    ensures Renamed(mb, ma, back)
  {
    back := map k | k in ma :: NewName(mb, name, k);
    forall l | l in mb
      ensures name[l] in ma && back[name[l]] == l
    {
    }
  }

  /** Same length and same scores; and where a score belongs to one match only, the same document. */
  ghost predicate SameRanking(a: seq<ScoredDocument>, b: seq<ScoredDocument>, matching: map<nat, real>) {
    && |a| == |b|
    && (forall i | 0 <= i < |a| :: a[i].score == b[i].score)
    && (forall i | 0 <= i < |a| && OnlyMatch(matching, a[i]) :: a[i].doc.Content() == b[i].doc.Content())
  }

  ghost predicate OnlyMatch(matching: map<nat, real>, s: ScoredDocument) {
    forall id | id in matching && matching[id] == s.score :: id == s.doc.id
  }

  /** The best matches of renamed documents are the same up to documents of equal score. */
  lemma RenamedRanking(
    a: seq<ScoredDocument>, b: seq<ScoredDocument>, ma: map<nat, real>, mb: map<nat, real>,
    da: map<nat, Document>, db: map<nat, Document>, limit: nat, name: map<nat, nat>)
    requires IsTop(a, ma, da, limit) && IsTop(b, mb, db, limit) && AreStored(ma, da) && AreStored(mb, db)
    requires Renamed(ma, mb, name)
    requires forall l | l in mb :: name[l] in da && l in db && db[l].Content() == da[name[l]].Content()
    ensures SameRanking(a, b, ma)
  {
    hide IsTop, Renamed, OnlyMatch, AreStored;
    var back := RenamedBack(ma, mb, name);
    RenamedCardinality(ma, mb, name);
    TopLength(a, ma, da, limit);
    TopLength(b, mb, db, limit);
    forall i | 0 <= i < |a|
      ensures a[i].score == b[i].score
    {
      ScoreIsNoHigher(a, b, ma, mb, da, db, limit, name, i);
      ScoreIsNoHigher(b, a, mb, ma, db, da, limit, back, i);
    }
    forall i | 0 <= i < |a| && OnlyMatch(ma, a[i])
      ensures a[i].doc.Content() == b[i].doc.Content()
    {
      OnlyMatchIsSame(a, b, ma, mb, da, db, limit, name, i);
    }
  }

  lemma TopLength(a: seq<ScoredDocument>, ma: map<nat, real>, da: map<nat, Document>, limit: nat)
    requires IsTop(a, ma, da, limit)
    ensures |a| == if |ma| < limit then |ma| else limit
  {
  }

  lemma ResultAt(a: seq<ScoredDocument>, ma: map<nat, real>, da: map<nat, Document>, limit: nat, i: nat)
    requires IsTop(a, ma, da, limit) && i < |a|
    ensures var id := a[i].doc.id;
            id in ma && id in da && a[i].doc == da[id] && a[i].score == ma[id]
  {
  }

  lemma OnlyMatchIsSame(
    a: seq<ScoredDocument>, b: seq<ScoredDocument>, ma: map<nat, real>, mb: map<nat, real>,
    da: map<nat, Document>, db: map<nat, Document>, limit: nat, name: map<nat, nat>, i: nat)
    requires IsTop(a, ma, da, limit) && IsTop(b, mb, db, limit) && Renamed(ma, mb, name)
    requires forall l | l in mb :: name[l] in da && l in db && db[l].Content() == da[name[l]].Content()
    requires i < |a| && i < |b| && a[i].score == b[i].score && OnlyMatch(ma, a[i])
    ensures a[i].doc.Content() == b[i].doc.Content()
  {
    hide IsTop;
    ResultAt(a, ma, da, limit, i);
    ResultAt(b, mb, db, limit, i);
    assert ma[name[b[i].doc.id]] == a[i].score;
  }
}
