/**
  The crawl frontier of src/crawler.cpp as a step system. Every critical section under the crawler's
  lock is one atomic step; robots verdicts, fetch outcomes and the links of a page are left open.
  */
module Frontier {
  import opened Bytes
  import opened Multisets
  import opened BloomFilter
  import opened Words

  datatype Options = Options(workerCount: nat, maxPages: nat, maxDepth: nat, bloom: Geometry)
  {
    ghost predicate Valid() {
      bloom.Valid()
    }
  }

  datatype Item = Item(url: bytes, depth: nat, priority: int, seqNo: nat)

  /** The item `ItemCompare` puts first: lower priority number, then lower sequence number. */
  predicate Better(a: Item, b: Item) {
    if a.priority != b.priority then a.priority < b.priority else a.seqNo < b.seqNo
  }

  /** Items with different sequence numbers are always strictly ordered. */
  lemma BetterIsStrictTotalOrder(a: Item, b: Item, c: Item)
    ensures !Better(a, a)
    ensures Better(a, b) && Better(b, c) ==> Better(a, c)
    ensures a.seqNo != b.seqNo ==> Better(a, b) || Better(b, a)
  {
  }

  /** Where a worker is: at the top of its loop, fetching an item, following its links, or gone. */
  datatype Worker =
    | Waiting
    | Processing(item: Item)
    | Following(item: Item, links: seq<bytes>)
    | Exited

  /**
    The crawler's shared state and its workers. `accepted`, `dequeued` and `finished` record the
    history: the items in the order each thing happened to them.
    */
  datatype State = State(
    queue: seq<Item>, seen: set<bytes>, filter: set<nat>,
    pending: int, crawled: nat, nextSeq: nat,
    stopped: bool, running: bool, joining: bool, workers: seq<Worker>,
    accepted: seq<Item>, dequeued: seq<Item>, finished: seq<Item>)

  const INITIAL := State([], {}, {}, 0, 0, 0, false, false, false, [], [], [], [])

  /** `static_cast<int>` of a 32-bit unsigned number. */
  function ToInt(n: nat): int
    requires n < TWO_32
  {
    if n < TWO_31 then n else n - TWO_32
  }

  // ----- enqueue -----

  datatype Enqueued = Enqueued(state: State, accepted: bool)

  function Accept(o: Options, s: State, url: bytes, depth: nat, priority: int): State
    requires o.bloom.Valid() && depth < TWO_32
  {
    var item := Item(url, depth, if priority < 0 then ToInt(depth) else priority, s.nextSeq);
    s.(seen := s.seen + {url},
       filter := s.filter + Probes(o.bloom, url),
       queue := s.queue + [item],
       nextSeq := s.nextSeq + 1,
       pending := s.pending + 1,
       running := true,
       workers := if s.running then s.workers else s.workers + Team(o),
       accepted := s.accepted + [item])
  }

  /** The workers the first accepted URL starts: at least one. */
  function Team(o: Options): (team: seq<Worker>)
    ensures team != [] && forall w | w in team :: w == Waiting
  {
    seq(if o.workerCount > 1 then o.workerCount else 1, _ => Waiting)
  }

  function Enqueue(o: Options, s: State, url: bytes, depth: nat, priority: int): (e: Enqueued)
    requires o.bloom.Valid() && depth < TWO_32
    ensures |s.workers| <= |e.state.workers|
    ensures !e.accepted ==> e.state == s
  {
    if s.stopped then Enqueued(s, false)
    else if s.crawled + s.pending >= o.maxPages then Enqueued(s, false)
    else if Probes(o.bloom, url) <= s.filter && url in s.seen then Enqueued(s, false)
    else if url in s.seen then Enqueued(s, false)
    else Enqueued(Accept(o, s, url, depth, priority), true)
  }

  // ----- Steps -----

  /** The position of the best item. */
  function Best(queue: seq<Item>): (k: nat)
    requires queue != []
    ensures k < |queue| && forall j | 0 <= j < |queue| :: !Better(queue[j], queue[k])
  {
    var n := |queue| - 1;
    if n == 0 then 0
    else
      var k := Best(queue[..n]);
      assert forall j | 0 <= j < n :: queue[j] == queue[..n][j];
      if Better(queue[n], queue[k]) then n else k
  }

  datatype Step =
    | Submit(url: bytes, depth: nat, priority: int)
    | Dequeue(worker: nat)
    | Abandon(worker: nat)
    | Fetched(worker: nat, links: seq<bytes>)
    | Follow(worker: nat)
    | Finish(worker: nat)
    | Exit(worker: nat)
    | Stop
    | Join

  predicate IsWorkerStep(step: Step) {
    !step.Submit? && !step.Stop? && !step.Join?
  }

  predicate AllExited(s: State) {
    forall w | 0 <= w < |s.workers| :: s.workers[w] == Exited
  }

  predicate Enabled(o: Options, s: State, step: Step) {
    match step
    case Submit(url, depth, priority) => depth < TWO_32
    case Dequeue(w) => w < |s.workers| && s.workers[w] == Waiting && s.queue != []
    case Abandon(w) => w < |s.workers| && s.workers[w].Processing?
    case Fetched(w, links) => w < |s.workers| && s.workers[w].Processing?
    case Follow(w) => w < |s.workers| && s.workers[w].Following? && s.workers[w].links != []
    case Finish(w) => w < |s.workers| && s.workers[w].Following? && s.workers[w].links == []
    case Exit(w) => w < |s.workers| && s.workers[w] == Waiting && s.queue == [] && s.stopped
    case Stop => true
    case Join => s.joining && AllExited(s)
  }

  function NextDepth(item: Item): nat {
    (item.depth + 1) % TWO_32
  }

  function After(o: Options, s: State, step: Step): State
    requires o.bloom.Valid() && Enabled(o, s, step)
  {
    match step
    case Submit(url, depth, priority) => Enqueue(o, s, url, depth, priority).state
    case Dequeue(w) =>
      var k := Best(s.queue);
      s.(queue := s.queue[..k] + s.queue[k + 1..],
         workers := s.workers[w := Processing(s.queue[k])],
         dequeued := s.dequeued + [s.queue[k]])
    case Abandon(w) =>
      s.(workers := s.workers[w := Following(s.workers[w].item, [])])
    case Fetched(w, links) =>
      var item := s.workers[w].item;
      s.(workers := s.workers[w := Following(item, if NextDepth(item) <= o.maxDepth then links else [])])
    case Follow(w) =>
      var Following(item, links) := s.workers[w];
      var e := Enqueue(o, s, links[0], NextDepth(item), ToInt(NextDepth(item)));
      e.state.(workers := e.state.workers[w := Following(item, if e.accepted then links[1..] else [])])
    case Finish(w) =>
      s.(workers := s.workers[w := Waiting],
         pending := s.pending - 1,
         crawled := s.crawled + 1,
         finished := s.finished + [s.workers[w].item])
    case Exit(w) => s.(workers := s.workers[w := Exited])
    case Stop => s.(stopped := true, joining := s.joining || !s.stopped)
    case Join => s.(workers := [], running := false, joining := false)
  }

  // ----- What the workers hold -----

  function Held(w: Worker): multiset<Item> {
    if w.Processing? || w.Following? then multiset{w.item} else multiset{}
  }

  function InFlight(workers: seq<Worker>): multiset<Item> {
    if workers == [] then multiset{} else InFlight(workers[..|workers| - 1]) + Held(workers[|workers| - 1])
  }

  lemma {:induction false} InFlightUpdate(workers: seq<Worker>, w: nat, x: Worker)
    requires w < |workers|
    ensures InFlight(workers[w := x]) + Held(workers[w]) == InFlight(workers) + Held(x)
  {
    hide Held;
    var n := |workers| - 1;
    var after := workers[w := x];
    if w == n {
      assert after[..n] == workers[..n];
      Regroup(InFlight(workers[..n]), Held(x), Held(workers[w]));
    } else {
      assert after[..n] == workers[..n][w := x];
      InFlightUpdate(workers[..n], w, x);
      Regroup(InFlight(after[..n]), Held(workers[n]), Held(workers[w]));
      Regroup(InFlight(workers[..n]), Held(workers[n]), Held(x));
    }
  }

  lemma InFlightSame(workers: seq<Worker>, w: nat, x: Worker)
    requires w < |workers| && Held(workers[w]) == Held(x)
    ensures InFlight(workers[w := x]) == InFlight(workers)
  {
    InFlightUpdate(workers, w, x);
    Cancel(InFlight(workers[w := x]), InFlight(workers), Held(x));
  }

  lemma InFlightTakes(workers: seq<Worker>, w: nat, x: Worker)
    requires w < |workers| && Held(workers[w]) == multiset{}
    ensures InFlight(workers[w := x]) == InFlight(workers) + Held(x)
  {
    InFlightUpdate(workers, w, x);
  }

  lemma InFlightReleases(workers: seq<Worker>, w: nat, x: Worker)
    requires w < |workers| && Held(x) == multiset{}
    ensures InFlight(workers[w := x]) + Held(workers[w]) == InFlight(workers)
  {
    InFlightUpdate(workers, w, x);
  }

  lemma {:induction false} InFlightOfIdle(workers: seq<Worker>)
    requires forall i | 0 <= i < |workers| :: workers[i] == Waiting || workers[i] == Exited
    ensures InFlight(workers) == multiset{}
  {
    if workers != [] {
      assert workers[|workers| - 1] in workers;
      InFlightOfIdle(workers[..|workers| - 1]);
    }
  }

  // ----- The invariant -----

  /** Accepted items are numbered in order and have distinct URLs: those of the set of seen URLs. */
  ghost predicate Numbered(s: State) {
    && |s.accepted| == s.nextSeq
    && (forall i | 0 <= i < |s.accepted| :: s.accepted[i].seqNo == i && s.accepted[i].url in s.seen)
    && (forall i, j | 0 <= i < j < |s.accepted| :: s.accepted[i].url != s.accepted[j].url)
    && (forall url | url in s.seen :: exists i :: 0 <= i < |s.accepted| && s.accepted[i].url == url)
  }

  /**
    Every accepted item is in exactly one of three places, the queue, a worker and the finished list, and
    the two counters count them: `pending` the first two places, `crawled` the third.
    */
  ghost predicate Ledger(queued: multiset<Item>, held: multiset<Item>, finished: multiset<Item>,
                         dequeued: multiset<Item>, accepted: multiset<Item>, pending: int, crawled: int)
  {
    && queued + held + finished == accepted
    && dequeued == held + finished
    && pending == |queued| + |held|
    && crawled == |finished|
  }

  ghost predicate Partitioned(s: State) {
    Ledger(multiset(s.queue), InFlight(s.workers), multiset(s.finished), multiset(s.dequeued),
           multiset(s.accepted), s.pending, s.crawled)
  }

  /** Whatever was dequeued had been overtaken by nothing that was accepted earlier and no less urgent. */
  ghost predicate Ordered(s: State) {
    forall j, i | 0 <= j < |s.dequeued| && 0 <= i < |s.accepted| ::
      s.accepted[i].seqNo < s.dequeued[j].seqNo && s.accepted[i].priority <= s.dequeued[j].priority
      ==> s.accepted[i] in s.dequeued[..j]
  }

  ghost predicate Lifecycle(s: State) {
    && (s.running <==> s.workers != [])
    && (s.workers == [] ==> s.queue == [])
    && (SomeExited(s.workers) ==> s.stopped && s.queue == [])
    && (s.joining ==> s.stopped)
  }

  ghost predicate SomeExited(workers: seq<Worker>) {
    exists w :: 0 <= w < |workers| && workers[w] == Exited
  }

  ghost predicate Filtered(o: Options, s: State)
    requires o.Valid()
  {
    forall url | url in s.seen :: Probes(o.bloom, url) <= s.filter
  }

  ghost predicate Invariant(o: Options, s: State)
    requires o.Valid()
  {
    && Numbered(s)
    && Partitioned(s)
    && Ordered(s)
    && Lifecycle(s)
    && Filtered(o, s)
    && |s.accepted| <= o.maxPages
  }

  lemma InitiallyTrue(o: Options)
    requires o.Valid()
    ensures Invariant(o, INITIAL)
  {
  }

  /** Pages crawled and pending together are exactly the accepted ones. */
  lemma TotalCount(o: Options, s: State)
    requires o.Valid() && Invariant(o, s)
    ensures s.crawled + s.pending == |s.accepted|
  {
    assert |multiset(s.queue) + InFlight(s.workers) + multiset(s.finished)| == |multiset(s.accepted)|;
  }

  lemma {:induction false} DistinctUrlCount(items: seq<Item>, urls: set<bytes>)
    requires forall i, j | 0 <= i < j < |items| :: items[i].url != items[j].url
    requires forall i | 0 <= i < |items| :: items[i].url in urls
    requires forall url | url in urls :: exists i :: 0 <= i < |items| && items[i].url == url
    ensures |urls| == |items|
  {
    if items == [] {
      assert urls == {};
    } else {
      var n := |items| - 1;
      var front, rest := items[..n], urls - {items[n].url};
      forall url | url in rest
        ensures exists i :: 0 <= i < |front| && front[i].url == url
      {
        var i :| 0 <= i < |items| && items[i].url == url;
        assert front[i].url == url;
      }
      DistinctUrlCount(front, rest);
    }
  }

  /** The filter never changes a verdict: a URL is accepted exactly when it is new and there is room. */
  lemma VerdictIsExact(o: Options, s: State, url: bytes, depth: nat, priority: int)
    requires o.Valid() && Invariant(o, s) && depth < TWO_32
    ensures Enqueue(o, s, url, depth, priority).accepted
            <==> !s.stopped && |s.accepted| < o.maxPages && url !in s.seen
    ensures url in s.seen ==> Probes(o.bloom, url) <= s.filter
  {
    TotalCount(o, s);
  }

  // ----- Every step keeps the invariant -----

  lemma RemoveAt(queue: seq<Item>, k: nat)
    requires k < |queue|
    ensures multiset(queue[..k] + queue[k + 1..]) + multiset{queue[k]} == multiset(queue)
  {
    assert queue == queue[..k] + [queue[k]] + queue[k + 1..];
  }

  lemma NumberedAccept(o: Options, s: State, url: bytes, depth: nat, priority: int)
    requires o.Valid() && Numbered(s) && depth < TWO_32 && url !in s.seen
    ensures Numbered(Accept(o, s, url, depth, priority))
  {
    hide Probes, Team, ToInt;
    var s' := Accept(o, s, url, depth, priority);
    var n := |s.accepted|;
    assert forall i | 0 <= i < n :: s'.accepted[i] == s.accepted[i];
    forall u | u in s'.seen
      ensures exists i :: 0 <= i < |s'.accepted| && s'.accepted[i].url == u
    {
      if u == url {
        assert s'.accepted[n].url == u;
      } else {
        var i :| 0 <= i < n && s.accepted[i].url == u;
        assert s'.accepted[i].url == u;
      }
    }
  }

  lemma {:induction false} InFlightConcat(ws: seq<Worker>, team: seq<Worker>)
    requires forall i | 0 <= i < |team| :: team[i] == Waiting
    ensures InFlight(ws + team) == InFlight(ws)
    decreases |team|
  {
    if team == [] {
      assert ws + team == ws;
    } else {
      var n := |team| - 1;
      assert (ws + team)[..|ws| + n] == ws + team[..n];
      InFlightConcat(ws, team[..n]);
    }
  }

  /** The three ways an item moves, stated on the books alone. */
  lemma LedgerAccepts(q: multiset<Item>, h: multiset<Item>, f: multiset<Item>, d: multiset<Item>,
                      all: multiset<Item>, p: int, c: int, x: Item)
    requires Ledger(q, h, f, d, all, p, c)
    ensures Ledger(q + multiset{x}, h, f, d, all + multiset{x}, p + 1, c)
  {
  }

  lemma LedgerDequeues(q: multiset<Item>, h: multiset<Item>, f: multiset<Item>, d: multiset<Item>,
                       all: multiset<Item>, p: int, c: int, x: Item)
    requires Ledger(q + multiset{x}, h, f, d, all, p, c)
    ensures Ledger(q, h + multiset{x}, f, d + multiset{x}, all, p, c)
  {
  }

  lemma LedgerFinishes(q: multiset<Item>, h: multiset<Item>, f: multiset<Item>, d: multiset<Item>,
                       all: multiset<Item>, p: int, c: int, x: Item)
    requires Ledger(q, h + multiset{x}, f, d, all, p, c)
    ensures Ledger(q, h, f + multiset{x}, d, all, p - 1, c + 1)
  {
  }

  lemma AcceptKeepsInvariant(o: Options, s: State, url: bytes, depth: nat, priority: int)
    requires o.Valid() && Invariant(o, s) && depth < TWO_32
    requires !s.stopped && s.crawled + s.pending < o.maxPages && url !in s.seen
    ensures Invariant(o, Accept(o, s, url, depth, priority))
  {
    hide Numbered, Ordered, Partitioned, Lifecycle, Probes;
    TotalCount(o, s);
    NumberedAccept(o, s, url, depth, priority);
    OrderedAccept(o, s, url, depth, priority);
    PartitionedAccept(o, s, url, depth, priority);
    LifecycleAccept(o, s, url, depth, priority);
  }

  lemma PartitionedAccept(o: Options, s: State, url: bytes, depth: nat, priority: int)
    requires o.Valid() && Partitioned(s) && depth < TWO_32
    ensures Partitioned(Accept(o, s, url, depth, priority))
  {
    hide Ledger, Probes, InFlight;
    var s' := Accept(o, s, url, depth, priority);
    var item := s'.accepted[|s.accepted|];
    InFlightConcat(s.workers, Team(o));
    AppendCounts(s.queue, item);
    AppendCounts(s.accepted, item);
    LedgerAccepts(multiset(s.queue), InFlight(s.workers), multiset(s.finished), multiset(s.dequeued),
                  multiset(s.accepted), s.pending, s.crawled, item);
  }

  lemma LifecycleAccept(o: Options, s: State, url: bytes, depth: nat, priority: int)
    requires o.Valid() && Lifecycle(s) && depth < TWO_32 && !s.stopped
    ensures Lifecycle(Accept(o, s, url, depth, priority))
  {
  }

  lemma OrderedAccept(o: Options, s: State, url: bytes, depth: nat, priority: int)
    requires o.Valid() && Invariant(o, s) && depth < TWO_32
    ensures Ordered(Accept(o, s, url, depth, priority))
  {
    var s' := Accept(o, s, url, depth, priority);
    forall j, i | 0 <= j < |s'.dequeued| && 0 <= i < |s'.accepted|
                  && s'.accepted[i].seqNo < s'.dequeued[j].seqNo && s'.accepted[i].priority <= s'.dequeued[j].priority
      ensures s'.accepted[i] in s'.dequeued[..j]
    {
      DequeuedWasAccepted(s, j);
      assert i < |s.accepted|;
      assert s'.accepted[i] == s.accepted[i];
    }
  }

  lemma DequeuedWasAccepted(s: State, j: nat)
    requires Numbered(s) && Partitioned(s) && j < |s.dequeued|
    ensures s.dequeued[j].seqNo < |s.accepted| && s.accepted[s.dequeued[j].seqNo] == s.dequeued[j]
  {
    var d := s.dequeued[j];
    assert d in multiset(s.dequeued);
    assert d in multiset(s.accepted);
    assert d in s.accepted;
  }

  lemma EnqueueKeepsInvariant(o: Options, s: State, url: bytes, depth: nat, priority: int)
    requires o.Valid() && Invariant(o, s) && depth < TWO_32
    ensures Invariant(o, Enqueue(o, s, url, depth, priority).state)
  {
    if Enqueue(o, s, url, depth, priority).accepted {
      AcceptKeepsInvariant(o, s, url, depth, priority);
    }
  }

  /** A worker changing what it does with the same item in hand changes nothing else. */
  lemma RelabelKeepsInvariant(o: Options, s: State, w: nat, x: Worker)
    requires o.Valid() && Invariant(o, s) && w < |s.workers|
    requires Held(s.workers[w]) == Held(x) && (x == Exited ==> s.stopped && s.queue == [])
    ensures Invariant(o, s.(workers := s.workers[w := x]))
  {
    var s' := s.(workers := s.workers[w := x]);
    InFlightSame(s.workers, w, x);
    LifecycleUpdate(s, s', w, x);
    NumberedIgnoresRest(s, s');
    OrderedIgnoresRest(s, s');
    hide Numbered, Ordered, Ledger, Lifecycle, Probes, InFlight, Held;
  }

  lemma LifecycleUpdate(s: State, s': State, w: nat, x: Worker)
    requires Lifecycle(s) && w < |s.workers| && s'.workers == s.workers[w := x]
    requires s'.stopped == s.stopped && s'.running == s.running && s'.joining == s.joining
    requires s.queue == [] ==> s'.queue == []
    requires x == Exited ==> s.stopped && s.queue == []
    ensures Lifecycle(s')
  {
  }

  /** Taking the best item respects the order of everything accepted so far. */
  lemma OrderedDequeue(o: Options, s: State)
    requires o.Valid() && Invariant(o, s) && s.queue != []
    ensures Ordered(s.(dequeued := s.dequeued + [s.queue[Best(s.queue)]]))
  {
    var best := s.queue[Best(s.queue)];
    var n, all := |s.dequeued|, s.dequeued + [best];
    assert all[..n] == s.dequeued;
    forall j, i | 0 <= j < |all| && 0 <= i < |s.accepted|
                  && s.accepted[i].seqNo < all[j].seqNo && s.accepted[i].priority <= all[j].priority
      ensures s.accepted[i] in all[..j]
    {
      if j < n {
        assert all[..j] == s.dequeued[..j];
      } else {
        var a := s.accepted[i];
        assert Better(a, best);
        assert forall k | 0 <= k < |s.queue| :: !Better(s.queue[k], best);
        assert a !in s.queue;
        assert a in multiset(s.accepted);
        assert a !in multiset(s.queue);
        assert a in multiset(s.dequeued);
      }
    }
  }

  lemma DequeueKeepsInvariant(o: Options, s: State, w: nat)
    requires o.Valid() && Invariant(o, s) && Enabled(o, s, Dequeue(w))
    ensures Invariant(o, After(o, s, Dequeue(w)))
  {
    var s' := After(o, s, Dequeue(w));
    OrderedDequeue(o, s);
    PartitionedDequeue(o, s, w);
    LifecycleUpdate(s, s', w, Processing(s.queue[Best(s.queue)]));
    NumberedIgnoresRest(s, s');
    OrderedIgnoresRest(s.(dequeued := s'.dequeued), s');
    hide Numbered, Ordered, Partitioned, Lifecycle, Probes;
  }

  lemma PartitionedDequeue(o: Options, s: State, w: nat)
    requires o.Valid() && Partitioned(s) && Enabled(o, s, Dequeue(w))
    ensures Partitioned(After(o, s, Dequeue(w)))
  {
    hide Ledger, InFlight, Best;
    var s', k := After(o, s, Dequeue(w)), Best(s.queue);
    var item := s.queue[k];
    RemoveAt(s.queue, k);
    InFlightTakes(s.workers, w, Processing(item));
    AppendCounts(s.dequeued, item);
    LedgerDequeues(multiset(s'.queue), InFlight(s.workers), multiset(s.finished), multiset(s.dequeued),
                   multiset(s.accepted), s.pending, s.crawled, item);
  }

  lemma NumberedIgnoresRest(s: State, s': State)
    requires Numbered(s) && s'.accepted == s.accepted && s'.nextSeq == s.nextSeq && s'.seen == s.seen
    ensures Numbered(s')
  {
  }

  lemma OrderedIgnoresRest(s: State, s': State)
    requires Ordered(s) && s'.accepted == s.accepted && s'.dequeued == s.dequeued
    ensures Ordered(s')
  {
  }

  lemma FinishKeepsInvariant(o: Options, s: State, w: nat)
    requires o.Valid() && Invariant(o, s) && Enabled(o, s, Finish(w))
    ensures Invariant(o, After(o, s, Finish(w)))
  {
    var s' := After(o, s, Finish(w));
    PartitionedFinish(o, s, w);
    LifecycleUpdate(s, s', w, Waiting);
    NumberedIgnoresRest(s, s');
    OrderedIgnoresRest(s, s');
    hide Numbered, Ordered, Partitioned, Lifecycle, Probes;
  }

  lemma PartitionedFinish(o: Options, s: State, w: nat)
    requires o.Valid() && Partitioned(s) && Enabled(o, s, Finish(w))
    ensures Partitioned(After(o, s, Finish(w)))
  {
    hide Ledger, InFlight;
    var s' := After(o, s, Finish(w));
    var item := s.workers[w].item;
    InFlightReleases(s.workers, w, Waiting);
    AppendCounts(s.finished, item);
    LedgerFinishes(multiset(s.queue), InFlight(s'.workers), multiset(s.finished), multiset(s.dequeued),
                   multiset(s.accepted), s.pending, s.crawled, item);
  }

  lemma JoinKeepsInvariant(o: Options, s: State)
    requires o.Valid() && Invariant(o, s) && Enabled(o, s, Join)
    ensures Invariant(o, After(o, s, Join))
  {
    var s' := After(o, s, Join);
    InFlightOfIdle(s.workers);
    NumberedIgnoresRest(s, s');
    OrderedIgnoresRest(s, s');
    assert s.workers != [] ==> SomeExited(s.workers);
    hide Numbered, Ordered, Ledger, Probes;
  }

  lemma StopKeepsInvariant(o: Options, s: State)
    requires o.Valid() && Invariant(o, s)
    ensures Invariant(o, After(o, s, Stop))
  {
    NumberedIgnoresRest(s, After(o, s, Stop));
    OrderedIgnoresRest(s, After(o, s, Stop));
    hide Numbered, Ordered, Ledger, Probes;
  }

  /** Every step of every worker and every caller keeps the invariant. */
  lemma StepKeepsInvariant(o: Options, s: State, step: Step)
    requires o.Valid() && Invariant(o, s) && Enabled(o, s, step)
    ensures Invariant(o, After(o, s, step))
  {
    hide Invariant, Best;
    match step
    case Submit(url, depth, priority) => EnqueueKeepsInvariant(o, s, url, depth, priority);
    case Dequeue(w) => DequeueKeepsInvariant(o, s, w);
    case Abandon(w) => ProcessingKeepsInvariant(o, s, w, []);
    case Fetched(w, links) =>
      ProcessingKeepsInvariant(o, s, w, if NextDepth(s.workers[w].item) <= o.maxDepth then links else []);
    case Follow(w) => FollowKeepsInvariant(o, s, w);
    case Finish(w) => FinishKeepsInvariant(o, s, w);
    case Exit(w) => RelabelKeepsInvariant(o, s, w, Exited);
    case Stop => StopKeepsInvariant(o, s);
    case Join => JoinKeepsInvariant(o, s);
  }

  lemma ProcessingKeepsInvariant(o: Options, s: State, w: nat, links: seq<bytes>)
    requires o.Valid() && Invariant(o, s) && w < |s.workers| && s.workers[w].Processing?
    ensures Invariant(o, s.(workers := s.workers[w := Following(s.workers[w].item, links)]))
  {
    hide Invariant;
    RelabelKeepsInvariant(o, s, w, Following(s.workers[w].item, links));
  }

  lemma FollowKeepsInvariant(o: Options, s: State, w: nat)
    requires o.Valid() && Invariant(o, s) && Enabled(o, s, Follow(w))
    ensures Invariant(o, After(o, s, Follow(w)))
  {
    hide Invariant, Probes;
    var Following(item, links) := s.workers[w];
    var e := Enqueue(o, s, links[0], NextDepth(item), ToInt(NextDepth(item)));
    EnqueueKeepsInvariant(o, s, links[0], NextDepth(item), ToInt(NextDepth(item)));
    assert e.state.workers[w] == s.workers[w];
    RelabelKeepsInvariant(o, e.state, w, Following(item, if e.accepted then links[1..] else []));
  }
}
