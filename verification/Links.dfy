/**
  Which links of a page are taken. The link loop of src/crawler.cpp ends at the first link that `enqueue`
  rejects, so a page that is linked need not be crawled: one run shows it, and the rest says exactly when.
  */
module Links {
  import opened Bytes
  import opened BloomFilter
  import opened Frontier
  import opened Crawls

  predicate Acceptable(o: Options, s: State, url: bytes) {
    !s.stopped && s.crawled + s.pending < o.maxPages && url !in s.seen
  }

  predicate IsFollowing(s: State, w: nat) {
    w < |s.workers| && s.workers[w].Following?
  }

  /** One round of the loop: an acceptable link is taken, any other one ends the loop. */
  lemma FollowRound(o: Options, s: State, w: nat)
    requires o.Valid() && Enabled(o, s, Follow(w))
    ensures var s' := After(o, s, Follow(w));
            var Following(item, links) := s.workers[w];
            && IsFollowing(s', w)
            && (!Acceptable(o, s, links[0]) ==> s' == s.(workers := s.workers[w := Following(item, [])]))
            && (Acceptable(o, s, links[0]) ==>
                  && s'.workers[w] == Following(item, links[1..])
                  && |s'.accepted| == |s.accepted| + 1 && s.accepted <= s'.accepted
                  && s'.accepted[|s.accepted|].url == links[0]
                  && s'.seen == s.seen + {links[0]} && s'.stopped == s.stopped
                  && s'.crawled == s.crawled && s'.pending == s.pending + 1)
  {
  }

  // ----- A page that is missed -----

  /** The stages of a crawl of page `a`, which links to itself and then to `b`. */
  function Stage(o: Options, a: bytes, b: bytes, n: nat): State
    requires o.bloom.Valid()
  {
    var item, team := Item(a, 0, 0, 0), Team(o);
    var taken := State([], {a}, Probes(o.bloom, a), 1, 0, 1, false, true, false, team, [item], [item], []);
    if n == 0 then INITIAL
    else if n == 1 then taken.(queue := [item], dequeued := [])
    else if n == 2 then taken.(workers := team[0 := Processing(item)])
    else if n == 3 then taken.(workers := team[0 := Following(item, [a, b])])
    else if n == 4 then taken.(workers := team[0 := Following(item, [])])
    else taken.(pending := 0, crawled := 1, finished := [item])
  }

  function StageStep(a: bytes, b: bytes, n: nat): Step {
    if n == 0 then Submit(a, 0, 0)
    else if n == 1 then Dequeue(0)
    else if n == 2 then Fetched(0, [a, b])
    else if n == 3 then Follow(0)
    else Finish(0)
  }

  lemma FirstStages(o: Options, a: bytes, b: bytes)
    requires o.Valid() && o.maxPages >= 2
    ensures IsStep(o, Stage(o, a, b, 0), StageStep(a, b, 0), Stage(o, a, b, 1))
    ensures IsStep(o, Stage(o, a, b, 1), StageStep(a, b, 1), Stage(o, a, b, 2))
  {
    hide Probes, Team;
    var item := Item(a, 0, 0, 0);
    assert Probes(o.bloom, a) == {} + Probes(o.bloom, a) && {} + {a} == {a};
    assert [] + Team(o) == Team(o);
    assert Best([item]) == 0 && [item][..0] + [item][1..] == [];
    assert Team(o)[0] in Team(o);
  }

  lemma LastStages(o: Options, a: bytes, b: bytes)
    requires o.Valid() && o.maxDepth >= 1
    ensures IsStep(o, Stage(o, a, b, 2), StageStep(a, b, 2), Stage(o, a, b, 3))
    ensures IsStep(o, Stage(o, a, b, 3), StageStep(a, b, 3), Stage(o, a, b, 4))
    ensures IsStep(o, Stage(o, a, b, 4), StageStep(a, b, 4), Stage(o, a, b, 5))
  {
    hide Probes, Team;
    var team := Team(o);
    assert team[0] in team;
    var item := Item(a, 0, 0, 0);
    var offered, cut := Following(item, [a, b]), Following(item, []);
    assert team[0 := Processing(item)][0 := offered] == team[0 := offered];
    assert team[0 := offered][0 := cut] == team[0 := cut];
    assert team[0 := cut][0 := Waiting] == team[0 := Waiting];
    assert team[0 := Waiting] == team;
  }

  /** The crawl ends with room, depth and workers left, and `b` was never accepted. */
  lemma LinkedPageIsMissed(o: Options, a: bytes, b: bytes) returns (states: seq<State>, steps: seq<Step>)
    requires o.Valid() && o.maxPages >= 2 && o.maxDepth >= 1 && a != b
    ensures IsRun(o, states, steps) && |steps| == 5
    ensures var s := states[2];
            && s.workers != [] && s.workers[0].Processing? && s.workers[0].item.url == a
            && NextDepth(s.workers[0].item) <= o.maxDepth && steps[2] == Fetched(0, [a, b])
    ensures var s := states[5];
            && s.queue == [] && s.pending == 0 && !s.stopped && s.crawled < o.maxPages
            && a in s.seen && b !in s.seen
  {
    hide IsStep, Probes, Team;
    FirstStages(o, a, b);
    LastStages(o, a, b);
    states := seq(6, n requires 0 <= n => Stage(o, a, b, n));
    steps := seq(5, n requires 0 <= n => StageStep(a, b, n));
    forall i | 0 <= i < 5
      ensures IsStep(o, states[i], steps[i], states[i + 1])
    {
      assert i == 0 || i == 1 || i == 2 || i == 3 || i == 4;
    }
  }

  // ----- The loop by itself -----

  /** What the loop does when nothing comes between its rounds. */
  function Loop(o: Options, s: State, w: nat): (s': State)
    requires o.bloom.Valid() && IsFollowing(s, w)
    decreases |s.workers[w].links|
  {
    if s.workers[w].links == [] then s else Loop(o, After(o, s, Follow(w)), w)
  }

  /** The condition under which every link is taken; a caller can check it before the loop. */
  ghost predicate AllNew(o: Options, s: State, links: seq<bytes>) {
    || links == []
    || (&& !s.stopped && s.crawled + s.pending + |links| <= o.maxPages
        && (forall i | 0 <= i < |links| :: links[i] !in s.seen)
        && (forall i, j | 0 <= i < j < |links| :: links[i] != links[j]))
  }

  lemma AllNewStep(o: Options, s: State, s': State, links: seq<bytes>)
    requires links != [] && s'.stopped == s.stopped
    requires s'.crawled + s'.pending == s.crawled + s.pending + 1 && s'.seen == s.seen + {links[0]}
    ensures AllNew(o, s, links) <==> Acceptable(o, s, links[0]) && AllNew(o, s', links[1..])
  {
    var rest := links[1..];
    assert forall i | 0 <= i < |rest| :: rest[i] == links[i + 1];
    if Acceptable(o, s, links[0]) && AllNew(o, s', rest) {
      forall i, j | 0 <= i < j < |links|
        ensures links[i] != links[j]
      {
        assert links[j] == rest[j - 1];
        if i > 0 {
          assert links[i] == rest[i - 1];
        }
      }
      forall i | 0 <= i < |links|
        ensures links[i] !in s.seen
      {
        if i > 0 {
          assert links[i] == rest[i - 1];
        }
      }
    }
  }

  /** The loop takes the longest prefix of new links there is room for, in order, and nothing else. */
  lemma {:induction false} LoopTakesLongestPrefix(o: Options, s: State, w: nat) returns (k: nat)
    requires o.Valid() && IsFollowing(s, w)
    ensures var links, s' := s.workers[w].links, Loop(o, s, w);
            && k <= |links| && AllNew(o, s, links[..k]) && (k < |links| ==> !AllNew(o, s, links[..k + 1]))
            && |s'.accepted| == |s.accepted| + k && s.accepted <= s'.accepted
            && (forall i | 0 <= i < k :: s'.accepted[|s.accepted| + i].url == links[i])
            && IsFollowing(s', w) && s'.workers[w] == s.workers[w].(links := [])
    decreases |s.workers[w].links|
  {
    hide AllNew, Acceptable, After;
    var links := s.workers[w].links;
    k := 0;
    AllNewOfNone(o, s, links[..0]);
    if links != [] {
      var s' := After(o, s, Follow(w));
      FollowRound(o, s, w);
      if Acceptable(o, s, links[0]) {
        var rest := links[1..];
        var n := LoopTakesLongestPrefix(o, s', w);
        k := n + 1;
        assert links[..k][0] == links[0] && links[..k][1..] == rest[..n];
        AllNewStep(o, s, s', links[..k]);
        if k < |links| {
          assert links[..k + 1][0] == links[0] && links[..k + 1][1..] == rest[..n + 1];
          AllNewStep(o, s, s', links[..k + 1]);
        }
      } else {
        NotAllNew(o, s, links[..1]);
      }
    }
  }

  lemma AllNewOfNone(o: Options, s: State, links: seq<bytes>)
    requires links == []
    ensures AllNew(o, s, links)
  {
  }

  lemma NotAllNew(o: Options, s: State, links: seq<bytes>)
    requires links != [] && !Acceptable(o, s, links[0])
    ensures !AllNew(o, s, links)
  {
  }

  lemma {:induction false} AllNewPrefix(o: Options, s: State, links: seq<bytes>, k: nat)
    requires k <= |links| && AllNew(o, s, links)
    ensures AllNew(o, s, links[..k])
  {
  }

  /** Undisturbed, the loop takes every link exactly when they are distinct, all new, and there is room. */
  lemma LoopTakesAllExactly(o: Options, s: State, w: nat)
    requires o.Valid() && IsFollowing(s, w)
    ensures |Loop(o, s, w).accepted| == |s.accepted| + |s.workers[w].links| <==> AllNew(o, s, s.workers[w].links)
  {
    hide AllNew, Loop;
    var links := s.workers[w].links;
    var k := LoopTakesLongestPrefix(o, s, w);
    if k < |links| && AllNew(o, s, links) {
      AllNewPrefix(o, s, links, k + 1);
    }
    assert links[..|links|] == links;
  }

  // ----- The loop among other workers -----

  /** The links a fetched page has the worker follow: none beyond the depth budget. */
  function Offered(o: Options, item: Item, links: seq<bytes>): seq<bytes> {
    if NextDepth(item) <= o.maxDepth then links else []
  }

  /** The URLs that worker `w` added by following links between two moments of a run. */
  ghost function Taken(states: seq<State>, steps: seq<Step>, i: nat, j: nat, w: nat): seq<bytes>
    requires i <= j <= |steps| && |states| == |steps| + 1
    decreases j
  {
    if i == j then []
    else
      var before, after := states[j - 1].accepted, states[j].accepted;
      Taken(states, steps, i, j - 1, w)
      + if steps[j - 1] == Follow(w) && |after| > |before| then [after[|after| - 1].url] else []
  }

  /** A step at which the loop over `rest` ends early: after a stop, at the page cap or at a URL seen before. */
  predicate CutAt(o: Options, s: State, step: Step, item: Item, rest: seq<bytes>) {
    && step.Follow? && step.worker < |s.workers| && s.workers[step.worker] == Following(item, rest)
    && rest != [] && !Acceptable(o, s, rest[0])
  }

  /** While a worker follows links, only its own steps change what it does. */
  lemma OthersLeaveWorker(o: Options, s: State, step: Step, w: nat)
    requires o.Valid() && Enabled(o, s, step) && IsFollowing(s, w) && (s.running <==> s.workers != [])
    requires step != Follow(w) && step != Finish(w)
    ensures IsFollowing(After(o, s, step), w) && After(o, s, step).workers[w] == s.workers[w]
  {
  }

  ghost predicate Progress(o: Options, states: seq<State>, steps: seq<Step>, i: nat, j: nat, w: nat, item: Item,
                           offered: seq<bytes>)
    requires i < j <= |steps| && |states| == |steps| + 1
  {
    var taken := Taken(states, steps, i + 1, j, w);
    && IsFollowing(states[j], w) && taken <= offered
    && (|| states[j].workers[w] == Following(item, offered[|taken|..])
        || (&& states[j].workers[w] == Following(item, [])
            && exists m :: i < m < j && steps[m].Follow? && steps[m].worker == w
                           && CutAt(o, states[m], steps[m], item, offered[|taken|..])))
  }

  /**
    In every interleaving the links a worker takes from its page are a prefix of the page's links, in their
    order; and the loop ends early only after a stop, at the page cap, or at a URL that was seen before.
    */
  lemma {:induction false} LinksTakenAsPrefix(
    o: Options, states: seq<State>, steps: seq<Step>, i: nat, j: nat, w: nat)
    requires o.Valid() && IsRun(o, states, steps) && i < j <= |steps|
    requires steps[i].Fetched? && steps[i].worker == w
    requires forall m | i < m < j :: steps[m] != Finish(w)
    ensures w < |states[i].workers| && states[i].workers[w].Processing?
    ensures var item := states[i].workers[w].item;
            Progress(o, states, steps, i, j, w, item, Offered(o, item, steps[i].links))
    decreases j
  {
    hide After, Enabled, Acceptable, Invariant, Progress, Taken, Offered;
    assert IsStep(o, states[i], steps[i], states[i + 1]);
    PageIsOffered(o, states[i], steps[i]);
    var item := states[i].workers[w].item;
    if j == i + 1 {
      ProgressStart(o, states, steps, i, w, item, Offered(o, item, steps[i].links));
    } else {
      LinksTakenAsPrefix(o, states, steps, i, j - 1, w);
      assert IsStep(o, states[j - 1], steps[j - 1], states[j]);
      RunKeepsInvariant(o, states, steps, j - 1);
      ProgressStep(o, states, steps, i, j - 1, w, item, Offered(o, item, steps[i].links));
    }
  }

  lemma ProgressStart(o: Options, states: seq<State>, steps: seq<Step>, i: nat, w: nat, item: Item,
                      offered: seq<bytes>)
    requires |states| == |steps| + 1 && i < |steps|
    requires IsFollowing(states[i + 1], w) && states[i + 1].workers[w] == Following(item, offered)
    ensures Progress(o, states, steps, i, i + 1, w, item, offered)
  {
    assert offered[0..] == offered;
  }

  lemma PageIsOffered(o: Options, s: State, step: Step)
    requires o.Valid() && Enabled(o, s, step) && step.Fetched?
    ensures step.worker < |s.workers| && s.workers[step.worker].Processing?
    ensures var item := s.workers[step.worker].item;
            var s' := After(o, s, step);
            IsFollowing(s', step.worker)
            && s'.workers[step.worker] == Following(item, Offered(o, item, step.links))
  {
  }

  lemma NextTaken(states: seq<State>, steps: seq<Step>, i: nat, j: nat, w: nat)
    requires i <= j < |steps| && |states| == |steps| + 1
    ensures var taken, next := Taken(states, steps, i, j, w), Taken(states, steps, i, j + 1, w);
            && (steps[j] != Follow(w) || states[j + 1].accepted == states[j].accepted ==> next == taken)
            && (steps[j] == Follow(w) && |states[j + 1].accepted| == |states[j].accepted| + 1 ==>
                  next == taken + [states[j + 1].accepted[|states[j].accepted|].url])
  {
  }

  lemma ProgressStep(o: Options, states: seq<State>, steps: seq<Step>, i: nat, j: nat, w: nat, item: Item,
                     offered: seq<bytes>)
    requires o.Valid() && |states| == |steps| + 1 && i < j < |steps| && steps[j] != Finish(w)
    requires IsStep(o, states[j], steps[j], states[j + 1]) && Invariant(o, states[j])
    requires Progress(o, states, steps, i, j, w, item, offered)
    ensures Progress(o, states, steps, i, j + 1, w, item, offered)
  {
    hide After, Enabled, Acceptable, Numbered, Partitioned, Ordered, Filtered, Taken;
    var s, taken := states[j], Taken(states, steps, i + 1, j, w);
    NextTaken(states, steps, i + 1, j, w);
    if steps[j] != Follow(w) {
      OthersLeaveWorker(o, s, steps[j], w);
    } else {
      var rest := offered[|taken|..];
      EmptyLoopIsOver(o, s, w);
      FollowRound(o, s, w);
      if Acceptable(o, s, rest[0]) {
        assert rest[1..] == offered[|taken| + 1..];
      } else {
        assert CutAt(o, s, steps[j], item, rest);
      }
    }
  }

  lemma EmptyLoopIsOver(o: Options, s: State, w: nat)
    requires o.Valid() && Enabled(o, s, Follow(w))
    ensures w < |s.workers| && s.workers[w].Following? && s.workers[w].links != []
  {
  }

  // ----- Which crawls leave nothing out -----

  /** The links a step hands to its worker. */
  function OfferedAt(o: Options, s: State, step: Step): seq<bytes> {
    if step.Fetched? && step.worker < |s.workers| && s.workers[step.worker].Processing? then
      Offered(o, s.workers[step.worker].item, step.links)
    else []
  }

  /** The links a step leaves untried because the first of them is rejected. */
  function LostAt(o: Options, s: State, step: Step): seq<bytes> {
    if step.Follow? && IsFollowing(s, step.worker) then
      var Following(item, links) := s.workers[step.worker];
      if CutAt(o, s, step, item, links) then links else []
    else []
  }

  /** Every link of every fetched page within the depth budget has been accepted from somewhere. */
  ghost predicate ClosedUnderLinks(o: Options, states: seq<State>, steps: seq<Step>)
    requires |states| == |steps| + 1
  {
    forall i, link | 0 <= i < |steps| && link in OfferedAt(o, states[i], steps[i]) :: link in states[|steps|].seen
  }

  /** Whatever a rejection left untried has been accepted from somewhere. */
  ghost predicate NothingLost(o: Options, states: seq<State>, steps: seq<Step>)
    requires |states| == |steps| + 1
  {
    forall i, link | 0 <= i < |steps| && link in LostAt(o, states[i], steps[i]) :: link in states[|steps|].seen
  }

  lemma StepGrowsSeen(o: Options, s: State, step: Step)
    requires o.Valid() && Enabled(o, s, step)
    ensures s.seen <= After(o, s, step).seen
  {
  }

  lemma {:induction false} SeenGrows(o: Options, states: seq<State>, steps: seq<Step>, i: nat, j: nat)
    requires o.Valid() && IsRun(o, states, steps) && i <= j < |states|
    ensures states[i].seen <= states[j].seen
    decreases j
  {
    hide After, Enabled;
    if i < j {
      SeenGrows(o, states, steps, i, j - 1);
      assert IsStep(o, states[j - 1], steps[j - 1], states[j]);
      StepGrowsSeen(o, states[j - 1], steps[j - 1]);
    }
  }

  lemma {:induction false} TakenAreSeen(o: Options, states: seq<State>, steps: seq<Step>, i: nat, j: nat, w: nat)
    requires o.Valid() && IsRun(o, states, steps) && i <= j <= |steps|
    ensures forall link | link in Taken(states, steps, i, j, w) :: link in states[j].seen
    decreases j
  {
    hide After, Enabled, Partitioned, Ordered, Lifecycle, Filtered;
    if i < j {
      TakenAreSeen(o, states, steps, i, j - 1, w);
      SeenGrows(o, states, steps, j - 1, j);
      RunKeepsInvariant(o, states, steps, j);
    }
  }

  /** A worker that still follows links keeps the crawl from being drained. */
  lemma FollowingIsPending(o: Options, s: State, w: nat)
    requires o.Valid() && Invariant(o, s) && IsFollowing(s, w)
    ensures s.pending > 0
  {
    hide Numbered, Ordered, Lifecycle, Filtered, InFlight;
    var item := s.workers[w].item;
    assert item in Held(s.workers[w]);
    HeldByWorker(s.workers, item);
    assert InFlight(s.workers)[item] > 0;
    assert InFlight(s.workers) != multiset{};
  }

  /** Where the loop over a page ends: at the worker's next finish, or with the run. */
  lemma {:induction false} LoopEnd(steps: seq<Step>, i: nat, w: nat) returns (j: nat)
    requires i <= |steps|
    ensures i <= j <= |steps| && (j < |steps| ==> steps[j] == Finish(w))
    ensures forall m | i <= m < j :: steps[m] != Finish(w)
    decreases |steps| - i
  {
    if i == |steps| || steps[i] == Finish(w) {
      j := i;
    } else {
      j := LoopEnd(steps, i + 1, w);
    }
  }

  lemma OfferedMeansFetched(o: Options, s: State, step: Step, link: bytes)
    requires link in OfferedAt(o, s, step)
    ensures step.Fetched? && step.worker < |s.workers| && s.workers[step.worker].Processing?
    ensures link in Offered(o, s.workers[step.worker].item, step.links)
  {
  }

  lemma CutIsLost(o: Options, s: State, step: Step, item: Item, rest: seq<bytes>)
    requires CutAt(o, s, step, item, rest)
    ensures LostAt(o, s, step) == rest
  {
  }

  lemma FinishedLoop(o: Options, s: State, step: Step)
    requires step.Finish? && Enabled(o, s, step)
    ensures s.workers[step.worker].links == []
  {
  }

  /** A link of a page is taken or lost by the time the crawl is drained. */
  lemma OfferedIsTakenOrLost(o: Options, states: seq<State>, steps: seq<Step>, i: nat, link: bytes)
    requires o.Valid() && IsRun(o, states, steps) && states[|steps|].pending == 0
    requires i < |steps| && link in OfferedAt(o, states[i], steps[i])
    ensures link in states[|steps|].seen || exists m :: 0 <= m < |steps| && link in LostAt(o, states[m], steps[m])
  {
    hide After, Enabled, Invariant, Taken, OfferedAt, Offered, LostAt, CutAt;
    OfferedMeansFetched(o, states[i], steps[i], link);
    var w := steps[i].worker;
    var j := LoopEnd(steps, i + 1, w);
    LinksTakenAsPrefix(o, states, steps, i, j, w);
    var item := states[i].workers[w].item;
    var offered, taken := Offered(o, item, steps[i].links), Taken(states, steps, i + 1, j, w);
    RunKeepsInvariant(o, states, steps, j);
    if j == |steps| {
      FollowingIsPending(o, states[j], w);
    }
    assert IsStep(o, states[j], steps[j], states[j + 1]);
    FinishedLoop(o, states[j], steps[j]);
    var rest := offered[|taken|..];
    assert offered == taken + rest;
    if link in taken {
      TakenAreSeen(o, states, steps, i + 1, j, w);
      SeenGrows(o, states, steps, j, |steps|);
    } else {
      var m :| i < m < j && steps[m].Follow? && steps[m].worker == w && CutAt(o, states[m], steps[m], item, rest);
      CutIsLost(o, states[m], steps[m], item, rest);
    }
  }

  lemma FollowedWasHandedOut(o: Options, s: State, step: Step, w: nat, link: bytes)
    requires o.Valid() && Enabled(o, s, step) && IsFollowing(After(o, s, step), w)
    requires link in After(o, s, step).workers[w].links
    ensures link in OfferedAt(o, s, step) || (IsFollowing(s, w) && link in s.workers[w].links)
  {
  }

  lemma {:induction false} FollowedWasOffered(
    o: Options, states: seq<State>, steps: seq<Step>, k: nat, w: nat, link: bytes) returns (i: nat)
    requires o.Valid() && IsRun(o, states, steps) && k < |states|
    requires IsFollowing(states[k], w) && link in states[k].workers[w].links
    ensures i < k && link in OfferedAt(o, states[i], steps[i])
    decreases k
  {
    hide After, Enabled, OfferedAt;
    assert states[0].workers == [];
    assert IsStep(o, states[k - 1], steps[k - 1], states[k]);
    FollowedWasHandedOut(o, states[k - 1], steps[k - 1], w, link);
    if link in OfferedAt(o, states[k - 1], steps[k - 1]) {
      i := k - 1;
    } else {
      i := FollowedWasOffered(o, states, steps, k - 1, w, link);
    }
  }

  /** A drained crawl is closed under links exactly when no rejection lost a link for good. */
  lemma ClosedExactly(o: Options, states: seq<State>, steps: seq<Step>)
    requires o.Valid() && IsRun(o, states, steps) && states[|steps|].pending == 0
    ensures ClosedUnderLinks(o, states, steps) <==> NothingLost(o, states, steps)
  {
    hide IsStep, OfferedAt, CutAt;
    if NothingLost(o, states, steps) {
      forall i, link | 0 <= i < |steps| && link in OfferedAt(o, states[i], steps[i])
        ensures link in states[|steps|].seen
      {
        OfferedIsTakenOrLost(o, states, steps, i, link);
      }
    }
    if ClosedUnderLinks(o, states, steps) {
      forall m, link | 0 <= m < |steps| && link in LostAt(o, states[m], steps[m])
        ensures link in states[|steps|].seen
      {
        var i := FollowedWasOffered(o, states, steps, m, steps[m].worker, link);
      }
    }
  }

  /** So a drained crawl in which nothing cut a loop short is closed under links, and all of it is crawled. */
  lemma UncutCrawlIsComplete(o: Options, states: seq<State>, steps: seq<Step>)
    requires o.Valid() && IsRun(o, states, steps) && states[|steps|].pending == 0
    requires forall i | 0 <= i < |steps| :: LostAt(o, states[i], steps[i]) == []
    ensures ClosedUnderLinks(o, states, steps)
    ensures forall url | url in states[|steps|].seen :: IsFinished(states[|steps|], url)
  {
    hide IsStep, LostAt, OfferedAt;
    ClosedExactly(o, states, steps);
    forall url | url in states[|steps|].seen
      ensures IsFinished(states[|steps|], url)
    {
      OnePlaceForEveryUrl(o, states, steps, |steps|, url);
      NothingInHand(o, states, steps, url);
    }
  }

  lemma NothingInHand(o: Options, states: seq<State>, steps: seq<Step>, url: bytes)
    requires o.Valid() && IsRun(o, states, steps) && states[|steps|].pending == 0
    ensures !InQueue(states[|steps|], url) && !InHand(states[|steps|], url)
  {
    var s := states[|steps|];
    hide IsRun, InFlight;
    PageCap(o, states, steps, |steps|);
    assert |s.queue| == 0 && |InFlight(s.workers)| == 0;
    InHandHolds(s, url);
  }
}
