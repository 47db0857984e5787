/** What holds over whole runs of the frontier, for every interleaving of workers and callers. */
module Crawls {
  import opened Bytes
  import opened Multisets
  import opened BloomFilter
  import opened Frontier

  /** A run: states joined by enabled steps, from the initial state. */
  ghost predicate IsRun(o: Options, states: seq<State>, steps: seq<Step>)
    requires o.Valid()
  {
    && |states| == |steps| + 1
    && states[0] == INITIAL
    && forall i | 0 <= i < |steps| :: IsStep(o, states[i], steps[i], states[i + 1])
  }

  ghost predicate IsStep(o: Options, s: State, step: Step, s': State)
    requires o.Valid()
  {
    Enabled(o, s, step) && s' == After(o, s, step)
  }

  lemma {:induction false} RunKeepsInvariant(o: Options, states: seq<State>, steps: seq<Step>, i: nat)
    requires o.Valid() && IsRun(o, states, steps) && i < |states|
    ensures Invariant(o, states[i])
  {
    hide Invariant, Enabled, After;
    if i == 0 {
      InitiallyTrue(o);
    } else {
      RunKeepsInvariant(o, states, steps, i - 1);
      assert IsStep(o, states[i - 1], steps[i - 1], states[i]);
      StepKeepsInvariant(o, states[i - 1], steps[i - 1]);
    }
  }

  // ----- Counting -----

  /**
    At every moment of every run the pages crawled and pending are exactly the URLs seen, and never more
    than the page cap.
    */
  lemma PageCap(o: Options, states: seq<State>, steps: seq<Step>, i: nat)
    requires o.Valid() && IsRun(o, states, steps) && i < |states|
    ensures states[i].crawled + states[i].pending == |states[i].seen| <= o.maxPages
    ensures states[i].pending == |states[i].queue| + |InFlight(states[i].workers)|
  {
    hide IsRun;
    RunKeepsInvariant(o, states, steps, i);
    TotalCount(o, states[i]);
    DistinctUrlCount(states[i].accepted, states[i].seen);
  }

  // ----- One place for every URL -----

  ghost predicate InQueue(s: State, url: bytes) {
    exists i :: 0 <= i < |s.queue| && s.queue[i].url == url
  }

  ghost predicate InHand(s: State, url: bytes) {
    exists w ::
      0 <= w < |s.workers| && (s.workers[w].Processing? || s.workers[w].Following?) && s.workers[w].item.url == url
  }

  ghost predicate IsFinished(s: State, url: bytes) {
    exists i :: 0 <= i < |s.finished| && s.finished[i].url == url
  }

  lemma {:induction false} HeldByWorker(workers: seq<Worker>, x: Item)
    ensures x in InFlight(workers) <==> exists w :: 0 <= w < |workers| && x in Held(workers[w])
  {
    hide Held;
    if workers != [] {
      var n := |workers| - 1;
      var front := workers[..n];
      HeldByWorker(front, x);
      if x in InFlight(front) {
        var w :| 0 <= w < n && x in Held(front[w]);
        assert x in Held(workers[w]);
      }
      if w :| 0 <= w < |workers| && x in Held(workers[w]) {
        assert w < n ==> x in Held(front[w]);
      }
    }
  }

  lemma InHandHolds(s: State, url: bytes)
    ensures InHand(s, url) <==> exists x: Item :: x in InFlight(s.workers) && x.url == url
  {
    if InHand(s, url) {
      var w :| 0 <= w < |s.workers| && (s.workers[w].Processing? || s.workers[w].Following?)
               && s.workers[w].item.url == url;
      HeldByWorker(s.workers, s.workers[w].item);
      assert s.workers[w].item in Held(s.workers[w]);
    }
    forall x: Item | x in InFlight(s.workers) && x.url == url
      ensures InHand(s, url)
    {
      HeldByWorker(s.workers, x);
      var w :| 0 <= w < |s.workers| && x in Held(s.workers[w]);
    }
  }

  /** Where an item with a given URL can be is decided by the one accepted item with that URL. */
  lemma OnlyOneItem(s: State, i: nat, places: multiset<Item>)
    requires Numbered(s) && i < |s.accepted| && places <= multiset(s.accepted)
    ensures multiset(s.accepted)[s.accepted[i]] == 1
    ensures (exists x: Item :: x in places && x.url == s.accepted[i].url) <==> places[s.accepted[i]] > 0
  {
    var a := s.accepted[i];
    assert s.accepted == s.accepted[..i] + [a] + s.accepted[i + 1..];
    assert a !in s.accepted[..i] && a !in s.accepted[i + 1..];
    forall x: Item | x in places && x.url == a.url
      ensures x == a
    {
      assert x in multiset(s.accepted);
      assert x in s.accepted;
    }
  }

  lemma InSequence(items: seq<Item>, url: bytes)
    ensures (exists i :: 0 <= i < |items| && items[i].url == url) <==>
            exists x: Item :: x in multiset(items) && x.url == url
  {
  }

  /** A seen URL is in the queue, with a worker or finished: in one of the three, never in two. */
  lemma OnePlaceForEveryUrl(o: Options, states: seq<State>, steps: seq<Step>, k: nat, url: bytes)
    requires o.Valid() && IsRun(o, states, steps) && k < |states|
    ensures var s := states[k];
            url in s.seen <==> InQueue(s, url) || InHand(s, url) || IsFinished(s, url)
    ensures var s := states[k];
            && !(InQueue(s, url) && InHand(s, url))
            && !(InQueue(s, url) && IsFinished(s, url))
            && !(InHand(s, url) && IsFinished(s, url))
  {
    RunKeepsInvariant(o, states, steps, k);
    OnePlace(o, states[k], url);
  }

  lemma OnePlace(o: Options, s: State, url: bytes)
    requires o.Valid() && Invariant(o, s)
    ensures url in s.seen <==> InQueue(s, url) || InHand(s, url) || IsFinished(s, url)
    ensures !(InQueue(s, url) && InHand(s, url))
    ensures !(InQueue(s, url) && IsFinished(s, url))
    ensures !(InHand(s, url) && IsFinished(s, url))
  {
    hide Ordered, Lifecycle, Filtered, InHand;
    var q, h, f, all := multiset(s.queue), InFlight(s.workers), multiset(s.finished), multiset(s.accepted);
    InSequence(s.queue, url);
    InSequence(s.finished, url);
    InHandHolds(s, url);
    if url in s.seen {
      var i :| 0 <= i < |s.accepted| && s.accepted[i].url == url;
      var a := s.accepted[i];
      assert (q + h + f)[a] == q[a] + h[a] + f[a];
      OnlyOneItem(s, i, q);
      OnlyOneItem(s, i, h);
      OnlyOneItem(s, i, f);
    } else {
      forall x: Item | x in q || x in h || x in f
        ensures x.url != url
      {
        assert x in all;
        assert x in s.accepted;
      }
    }
  }

  /** No URL is taken out of the queue twice, so none is processed twice. */
  lemma EachUrlProcessedOnce(o: Options, states: seq<State>, steps: seq<Step>, k: nat, i: nat, j: nat)
    requires o.Valid() && IsRun(o, states, steps) && k < |states|
    requires i < j < |states[k].dequeued|
    ensures states[k].dequeued[i].url != states[k].dequeued[j].url
  {
    RunKeepsInvariant(o, states, steps, k);
    var s := states[k];
    var d, a := s.dequeued, s.dequeued[i];
    DequeuedWasAccepted(s, i);
    DequeuedWasAccepted(s, j);
    assert multiset(d) <= multiset(s.accepted);
    OnlyOneItem(s, a.seqNo, multiset(d));
    if d[i] == d[j] {
      CountedTwice(d, i, j);
    }
  }

  /** A run never dequeues more than `maxPages` items. */
  lemma DequeuesAreBounded(o: Options, states: seq<State>, steps: seq<Step>)
    requires o.Valid() && IsRun(o, states, steps)
    ensures DequeueCount(steps) == |states[|steps|].dequeued| <= o.maxPages
  {
    hide Invariant;
    DequeuesCounted(o, states, steps, |steps|);
    assert steps[..|steps|] == steps;
    RunKeepsInvariant(o, states, steps, |steps|);
    DequeuedAtMostAccepted(o, states[|steps|]);
  }

  function DequeueCount(steps: seq<Step>): nat {
    if steps == [] then 0
    else DequeueCount(steps[..|steps| - 1]) + if steps[|steps| - 1].Dequeue? then 1 else 0
  }

  lemma StepDequeues(o: Options, s: State, step: Step)
    requires o.Valid() && Enabled(o, s, step)
    ensures |After(o, s, step).dequeued| == |s.dequeued| + if step.Dequeue? then 1 else 0
  {
    hide Best, Probes;
  }

  lemma {:induction false} DequeuesCounted(o: Options, states: seq<State>, steps: seq<Step>, n: nat)
    requires o.Valid() && IsRun(o, states, steps) && n <= |steps|
    ensures DequeueCount(steps[..n]) == |states[n].dequeued|
  {
    hide Enabled, After;
    if n > 0 {
      DequeuesCounted(o, states, steps, n - 1);
      assert steps[..n][..n - 1] == steps[..n - 1];
      assert IsStep(o, states[n - 1], steps[n - 1], states[n]);
      StepDequeues(o, states[n - 1], steps[n - 1]);
    }
  }

  lemma DequeuedAtMostAccepted(o: Options, s: State)
    requires o.Valid() && Invariant(o, s)
    ensures |s.dequeued| <= |s.accepted| <= o.maxPages
  {
    hide Numbered, Ordered, Lifecycle, Filtered;
    assert |multiset(s.dequeued)| == |InFlight(s.workers)| + |multiset(s.finished)|;
    assert |multiset(s.accepted)| == |multiset(s.queue)| + |InFlight(s.workers)| + |multiset(s.finished)|;
  }

  // ----- Order -----

  /** An item accepted earlier and no less urgent is always dequeued earlier. */
  lemma EarlierAndNoLessUrgentGoesFirst(
    o: Options, states: seq<State>, steps: seq<Step>, k: nat, i: nat, m: nat, j: nat)
    requires o.Valid() && IsRun(o, states, steps) && k < |states|
    requires i < m < |states[k].accepted| && j < |states[k].dequeued|
    requires states[k].accepted[i].priority <= states[k].accepted[m].priority
    requires states[k].dequeued[j] == states[k].accepted[m]
    ensures exists j' :: 0 <= j' < j && states[k].dequeued[j'] == states[k].accepted[i]
  {
    RunKeepsInvariant(o, states, steps, k);
    var s := states[k];
    assert s.accepted[i].seqNo == i && s.accepted[m].seqNo == m;
    assert s.accepted[i] in s.dequeued[..j];
    var j' :| 0 <= j' < j && s.dequeued[..j][j'] == s.accepted[i];
    assert s.dequeued[j'] == s.accepted[i];
  }

  // ----- Stopping -----

  /** After `stop` nothing is accepted any more. */
  lemma {:induction false} StoppedAcceptsNothing(o: Options, states: seq<State>, steps: seq<Step>, i: nat, j: nat)
    requires o.Valid() && IsRun(o, states, steps) && i <= j < |states|
    requires states[i].stopped
    ensures states[j].stopped && states[j].accepted == states[i].accepted && states[j].seen == states[i].seen
    decreases j
  {
    if i < j {
      StoppedAcceptsNothing(o, states, steps, i, j - 1);
      assert IsStep(o, states[j - 1], steps[j - 1], states[j]);
      hide Best, Probes;
    }
  }

  /** Once every worker has exited nothing is left: all that was ever accepted has been crawled. */
  lemma ExitedMeansDrained(o: Options, states: seq<State>, steps: seq<Step>, k: nat)
    requires o.Valid() && IsRun(o, states, steps) && k < |states|
    requires AllExited(states[k])
    ensures states[k].queue == [] && states[k].pending == 0
    ensures states[k].crawled == |states[k].accepted| == |states[k].seen|
  {
    PageCap(o, states, steps, k);
    RunKeepsInvariant(o, states, steps, k);
    hide IsRun, Numbered, Ordered, Filtered;
    var s := states[k];
    InFlightOfIdle(s.workers);
    assert s.workers != [] ==> SomeExited(s.workers);
    TotalCount(o, s);
  }

  function Weigh(workers: seq<Worker>, weight: Worker -> nat): nat {
    if workers == [] then 0 else Weigh(workers[..|workers| - 1], weight) + weight(workers[|workers| - 1])
  }

  lemma {:induction false} WeighUpdate(workers: seq<Worker>, weight: Worker -> nat, w: nat, x: Worker)
    requires w < |workers|
    ensures Weigh(workers[w := x], weight) + weight(workers[w]) == Weigh(workers, weight) + weight(x)
  {
    var n := |workers| - 1;
    if w == n {
      assert workers[w := x][..n] == workers[..n];
    } else {
      assert workers[w := x][..n] == workers[..n][w := x];
      WeighUpdate(workers[..n], weight, w, x);
    }
  }

  function Fetching(w: Worker): nat { if w.Processing? then 1 else 0 }
  function LinksLeft(w: Worker): nat { if w.Following? then |w.links| else 0 }
  function Linking(w: Worker): nat { if w.Following? then 1 else 0 }
  function Idling(w: Worker): nat { if w.Waiting? then 1 else 0 }

  /** What is left to do after a stop: items queued, pages in fetching, links, pages to finish, workers to go. */
  datatype Work = Work(queued: nat, fetching: nat, links: nat, linking: nat, idle: nat)

  function WorkLeft(s: State): Work {
    Work(|s.queue|, Weigh(s.workers, Fetching), Weigh(s.workers, LinksLeft),
         Weigh(s.workers, Linking), Weigh(s.workers, Idling))
  }

  /** Less work, compared component by component from the left. */
  predicate Less(a: Work, b: Work) {
    || a.queued < b.queued
    || (a.queued == b.queued && a.fetching < b.fetching)
    || (a.queued == b.queued && a.fetching == b.fetching && a.links < b.links)
    || (a.queued == b.queued && a.fetching == b.fetching && a.links == b.links && a.linking < b.linking)
    || (a.queued == b.queued && a.fetching == b.fetching && a.links == b.links && a.linking == b.linking
        && a.idle < b.idle)
  }

  lemma WeighAll(workers: seq<Worker>, w: nat, x: Worker)
    requires w < |workers|
    ensures Weigh(workers[w := x], Fetching) + Fetching(workers[w]) == Weigh(workers, Fetching) + Fetching(x)
    ensures Weigh(workers[w := x], LinksLeft) + LinksLeft(workers[w]) == Weigh(workers, LinksLeft) + LinksLeft(x)
    ensures Weigh(workers[w := x], Linking) + Linking(workers[w]) == Weigh(workers, Linking) + Linking(x)
    ensures Weigh(workers[w := x], Idling) + Idling(workers[w]) == Weigh(workers, Idling) + Idling(x)
  {
    WeighUpdate(workers, Fetching, w, x);
    WeighUpdate(workers, LinksLeft, w, x);
    WeighUpdate(workers, Linking, w, x);
    WeighUpdate(workers, Idling, w, x);
  }

  /** After a stop every step of every worker leaves less work. */
  lemma StoppedWorkShrinks(o: Options, s: State, step: Step)
    requires o.Valid() && s.stopped && IsWorkerStep(step) && Enabled(o, s, step)
    ensures Less(WorkLeft(After(o, s, step)), WorkLeft(s))
  {
    hide Best, Probes, Weigh;
    var s' := After(o, s, step);
    WeighAll(s.workers, step.worker, s'.workers[step.worker]);
  }

  /** After a stop no worker waits forever: while one remains, some worker can take a step. */
  lemma StoppedWorkersCanMove(o: Options, s: State) returns (step: Step)
    requires o.Valid() && s.stopped && !AllExited(s)
    ensures IsWorkerStep(step) && Enabled(o, s, step)
  {
    var w :| 0 <= w < |s.workers| && s.workers[w] != Exited;
    match s.workers[w]
    case Waiting => step := if s.queue == [] then Exit(w) else Dequeue(w);
    case Processing(_) => step := Abandon(w);
    case Following(_, links) => step := if links == [] then Finish(w) else Follow(w);
  }

  lemma StoppedStays(o: Options, s: State, step: Step)
    requires o.Valid() && s.stopped && Enabled(o, s, step)
    ensures After(o, s, step).stopped
  {
    hide Best, Probes;
  }

  /** So a stopped crawl always drains: letting the workers move ends with all of them gone. */
  lemma {:induction false} StopDrains(o: Options, states: seq<State>, steps: seq<Step>)
    returns (states': seq<State>, steps': seq<Step>)
    requires o.Valid() && IsRun(o, states, steps) && states[|steps|].stopped
    ensures IsRun(o, states', steps') && states <= states' && steps <= steps'
    ensures forall i | |steps| <= i < |steps'| :: IsWorkerStep(steps'[i])
    ensures AllExited(states'[|steps'|])
    decreases WorkLeft(states[|steps|]).queued, WorkLeft(states[|steps|]).fetching,
              WorkLeft(states[|steps|]).links, WorkLeft(states[|steps|]).linking, WorkLeft(states[|steps|]).idle
  {
    var s := states[|steps|];
    if AllExited(s) {
      return states, steps;
    }
    var step := StoppedWorkersCanMove(o, s);
    var next := After(o, s, step);
    StoppedWorkShrinks(o, s, step);
    StoppedStays(o, s, step);
    ExtendRun(o, states, steps, step);
    hide WorkLeft, After, Enabled, IsRun, AllExited;
    states', steps' := StopDrains(o, states + [next], steps + [step]);
    assert states <= states + [next] <= states' && steps <= steps + [step] <= steps';
    forall i | |steps| <= i < |steps'|
      ensures IsWorkerStep(steps'[i])
    {
      assert steps'[|steps|] == (steps + [step])[|steps|];
    }
  }

  lemma ExtendRun(o: Options, states: seq<State>, steps: seq<Step>, step: Step)
    requires o.Valid() && IsRun(o, states, steps) && Enabled(o, states[|steps|], step)
    ensures IsRun(o, states + [After(o, states[|steps|], step)], steps + [step])
  {
    hide Enabled, After;
    var more, steps' := states + [After(o, states[|steps|], step)], steps + [step];
    forall i | 0 <= i < |steps'|
      ensures IsStep(o, more[i], steps'[i], more[i + 1])
    {
      if i < |steps| {
        assert IsStep(o, states[i], steps[i], states[i + 1]);
      }
    }
  }

  // ----- Depth -----

  /** Links are only followed within the depth budget. */
  ghost predicate WithinDepth(o: Options, s: State) {
    && (forall i | 0 <= i < |s.accepted| :: s.accepted[i].depth <= o.maxDepth)
    && (forall w | 0 <= w < |s.workers| ::
          s.workers[w].Following? && s.workers[w].links != [] ==> NextDepth(s.workers[w].item) <= o.maxDepth)
  }

  lemma StepKeepsDepth(o: Options, s: State, step: Step)
    requires o.Valid() && WithinDepth(o, s) && Enabled(o, s, step)
    requires step.Submit? ==> step.depth <= o.maxDepth
    ensures WithinDepth(o, After(o, s, step))
  {
    hide Best, Probes;
    var s' := After(o, s, step);
    forall w | 0 <= w < |s'.workers| && s'.workers[w].Following? && s'.workers[w].links != []
      ensures NextDepth(s'.workers[w].item) <= o.maxDepth
    {
      assert w < |s.workers|;
    }
  }

  /** When no caller submits a URL beyond the maximum depth, none is ever accepted beyond it. */
  lemma {:induction false} DepthBudget(o: Options, states: seq<State>, steps: seq<Step>, k: nat)
    requires o.Valid() && IsRun(o, states, steps) && k < |states|
    requires forall i | 0 <= i < |steps| && steps[i].Submit? :: steps[i].depth <= o.maxDepth
    ensures WithinDepth(o, states[k])
  {
    if k > 0 {
      DepthBudget(o, states, steps, k - 1);
      assert IsStep(o, states[k - 1], steps[k - 1], states[k]);
      StepKeepsDepth(o, states[k - 1], steps[k - 1]);
    }
  }
}
