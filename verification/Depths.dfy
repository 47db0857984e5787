/**
  Where accepted pages come from, and how deep they lie: every one was submitted by a caller or is a link of a
  page accepted before it, one level deeper, and links reach no farther than the depth limit.
  */
module Depths {
  import opened Bytes
  import opened Frontier
  import opened Crawls
  import opened Links

  /** A number converted to a 32-bit signed one. */
  function Signed(n: nat): int {
    if n < 0x8000_0000 then n else n - 0x1_0000_0000
  }

  /** The depth of a page's links: one more, in 32-bit unsigned arithmetic. */
  function Below(page: Item): int {
    if page.depth == 0xFFFF_FFFF then 0 else page.depth + 1
  }

  /** A submitted page keeps its depth and its priority; a negative priority stands for the depth. */
  predicate SubmittedAs(step: Step, x: Item) {
    && step.Submit? && step.url == x.url && step.depth == x.depth < 0x1_0000_0000
    && x.priority == if step.priority >= 0 then step.priority else Signed(x.depth)
  }

  /** A link of a page is one level deeper and as urgent as it is deep. */
  predicate LinkedAs(o: Options, page: Item, x: Item) {
    x.depth == Below(page) <= o.maxDepth && x.priority == Signed(x.depth)
  }

  /** What a fetched page leaves its worker to follow: all its links or, at the depth limit, none. */
  lemma LinksKeptExactly(o: Options, s: State, w: nat, links: seq<bytes>)
    requires o.Valid() && Enabled(o, s, Fetched(w, links)) && s.workers[w].item.depth < 0x1_0000_0000
    ensures var page, s' := s.workers[w].item, After(o, s, Fetched(w, links));
            && |s'.workers| == |s.workers|
            && s'.workers[w] == Following(page, if Below(page) <= o.maxDepth then links else [])
  {
  }

  /** The only steps that add a page, and what they add. */
  lemma WhoAccepts(o: Options, s: State, step: Step)
    requires o.Valid() && Enabled(o, s, step)
    ensures var s' := After(o, s, step);
            || s'.accepted == s.accepted
            || (&& step.Submit? && exists x :: s'.accepted == s.accepted + [x] && SubmittedAs(step, x))
            || (&& step.Follow? && IsFollowing(s, step.worker) && s.workers[step.worker].links != []
                && exists x :: && s'.accepted == s.accepted + [x] && x.url == s.workers[step.worker].links[0]
                               && x.priority == Signed(x.depth) && x.depth < 0x1_0000_0000
                               && (s.workers[step.worker].item.depth < 0x1_0000_0000 ==>
                                     x.depth == Below(s.workers[step.worker].item)))
  {
    var s' := After(o, s, step);
    if s'.accepted != s.accepted {
      var x := s'.accepted[|s.accepted|];
      assert s'.accepted == s.accepted + [x];
    }
  }

  lemma {:induction false} DepthsFit(o: Options, states: seq<State>, steps: seq<Step>, k: nat)
    requires o.Valid() && IsRun(o, states, steps) && k < |states|
    ensures forall i | 0 <= i < |states[k].accepted| :: states[k].accepted[i].depth < 0x1_0000_0000
  {
    hide After, Enabled;
    if k > 0 {
      DepthsFit(o, states, steps, k - 1);
      assert IsStep(o, states[k - 1], steps[k - 1], states[k]);
      WhoAccepts(o, states[k - 1], steps[k - 1]);
    }
  }

  /** An item in a worker's hands is an accepted one. */
  lemma HeldWasAccepted(o: Options, s: State, w: nat) returns (j: nat)
    requires o.Valid() && Invariant(o, s) && w < |s.workers| && (s.workers[w].Processing? || s.workers[w].Following?)
    ensures j < |s.accepted| && s.accepted[j] == s.workers[w].item
  {
    hide Ordered, Lifecycle, Filtered, InFlight, Numbered;
    var x := s.workers[w].item;
    assert x in Held(s.workers[w]);
    HeldByWorker(s.workers, x);
    assert x in multiset(s.accepted);
    j :| j < |s.accepted| && s.accepted[j] == x;
  }

  /** The step at which worker `w` had fetched the page whose links it follows. */
  ghost predicate FetchedBy(o: Options, s: State, step: Step, w: nat, page: Item, links: seq<bytes>) {
    && step.Fetched? && step.worker == w && w < |s.workers| && s.workers[w] == Processing(page)
    && (forall link | link in links :: link in step.links)
    && (page.depth < 0x1_0000_0000 ==> Below(page) <= o.maxDepth)
  }

  lemma HowLinksGotThere(o: Options, s: State, step: Step, w: nat)
    requires o.Valid() && Enabled(o, s, step) && IsFollowing(After(o, s, step), w)
    requires After(o, s, step).workers[w].links != []
    ensures var next := After(o, s, step).workers[w];
            || FetchedBy(o, s, step, w, next.item, next.links)
            || (IsFollowing(s, w) && s.workers[w].item == next.item && s.workers[w].links != []
                && forall link | link in next.links :: link in s.workers[w].links)
  {
  }

  lemma {:induction false} FollowedPage(o: Options, states: seq<State>, steps: seq<Step>, k: nat, w: nat)
    returns (f: nat)
    requires o.Valid() && IsRun(o, states, steps) && k < |states|
    requires IsFollowing(states[k], w) && states[k].workers[w].links != []
    ensures f < k && FetchedBy(o, states[f], steps[f], w, states[k].workers[w].item, states[k].workers[w].links)
    decreases k
  {
    hide After, Enabled;
    assert states[0].workers == [];
    assert IsStep(o, states[k - 1], steps[k - 1], states[k]);
    HowLinksGotThere(o, states[k - 1], steps[k - 1], w);
    var worker := states[k].workers[w];
    if FetchedBy(o, states[k - 1], steps[k - 1], w, worker.item, worker.links) {
      f := k - 1;
    } else {
      f := FollowedPage(o, states, steps, k - 1, w);
    }
  }

  // ----- Where every page comes from -----

  /** The `i`-th accepted page was submitted by a caller. */
  ghost predicate WasSubmitted(states: seq<State>, steps: seq<Step>, x: Item, i: nat)
    requires |states| == |steps| + 1
  {
    exists m :: 0 <= m < |steps| && |states[m].accepted| == i && SubmittedAs(steps[m], x)
  }

  /** It was accepted when a worker followed a link to it from `page`, among the links fetched for that page. */
  ghost predicate WasLinked(o: Options, states: seq<State>, steps: seq<Step>, page: Item, x: Item, i: nat)
    requires |states| == |steps| + 1
  {
    LinkedAs(o, page, x)
    && exists f, m ::
         && 0 <= f < m < |steps| && |states[m].accepted| == i
         && steps[f].Fetched? && x.url in steps[f].links && steps[m] == Follow(steps[f].worker)
         && steps[f].worker < |states[f].workers| && states[f].workers[steps[f].worker] == Processing(page)
  }

  /** When the `i`-th page was accepted. */
  lemma {:induction false} WhenAccepted(o: Options, states: seq<State>, steps: seq<Step>, k: nat, i: nat)
    returns (m: nat)
    requires o.Valid() && IsRun(o, states, steps) && k < |states| && i < |states[k].accepted|
    ensures m < k && |states[m].accepted| == i && states[m + 1].accepted == states[m].accepted + [states[k].accepted[i]]
    ensures states[m].accepted == states[k].accepted[..i]
    decreases k
  {
    hide After, Enabled;
    assert states[0].accepted == [];
    assert IsStep(o, states[k - 1], steps[k - 1], states[k]);
    WhoAccepts(o, states[k - 1], steps[k - 1]);
    var before := states[k - 1].accepted;
    if i < |before| {
      m := WhenAccepted(o, states, steps, k - 1, i);
    } else {
      m := k - 1;
    }
  }

  /**
    In every run, every accepted page either was submitted with its depth and priority, or was accepted when a
    worker followed a link to it from a page accepted earlier, and is then one level deeper than that page.
    */
  lemma EveryPageHasASource(o: Options, states: seq<State>, steps: seq<Step>, i: nat) returns (j: nat)
    requires o.Valid() && IsRun(o, states, steps) && i < |states[|steps|].accepted|
    ensures var pages := states[|steps|].accepted;
            || WasSubmitted(states, steps, pages[i], i)
            || (j < i && WasLinked(o, states, steps, pages[j], pages[i], i))
  {
    hide After, Enabled, Invariant, LinkedAs, SubmittedAs;
    var pages := states[|steps|].accepted;
    var m := WhenAccepted(o, states, steps, |steps|, i);
    assert IsStep(o, states[m], steps[m], states[m + 1]);
    WhoAccepts(o, states[m], steps[m]);
    assert states[m + 1].accepted[i] == pages[i];
    j := 0;
    if steps[m].Follow? {
      var w := steps[m].worker;
      var page := states[m].workers[w].item;
      RunKeepsInvariant(o, states, steps, m);
      j := HeldWasAccepted(o, states[m], w);
      DepthsFit(o, states, steps, m);
      var f := FollowedPage(o, states, steps, m, w);
      assert pages[j] == page;
      LinkDepth(o, page, pages[i]);
    }
  }

  lemma LinkDepth(o: Options, page: Item, x: Item)
    requires x.depth == Below(page) <= o.maxDepth && x.priority == Signed(x.depth)
    ensures LinkedAs(o, page, x)
  {
  }

  // ----- How far links reach -----

  /** A chain of links from a submitted page, given by the numbers of its pages. */
  ghost predicate IsChain(o: Options, states: seq<State>, steps: seq<Step>, path: seq<nat>)
    requires |states| == |steps| + 1
  {
    var pages := states[|steps|].accepted;
    && path != [] && (forall n | 0 <= n < |path| :: path[n] < |pages|)
    && WasSubmitted(states, steps, pages[path[0]], path[0])
    && forall n | 0 < n < |path| :: WasLinked(o, states, steps, pages[path[n - 1]], pages[path[n]], path[n])
  }

  /** No page is submitted at the last 32-bit depth, and that is not the limit either: depths never wrap round. */
  predicate NoWrap(o: Options, steps: seq<Step>) {
    o.maxDepth < 0xFFFF_FFFF && forall i | 0 <= i < |steps| && steps[i].Submit? :: steps[i].depth < 0xFFFF_FFFF
  }

  /**
    A page of depth `d` hangs on a chain of exactly `d - d0` links from a page submitted at depth `d0`; and a
    page that was not itself submitted lies within the limit.
    */
  lemma {:induction false} DepthIsDistance(o: Options, states: seq<State>, steps: seq<Step>, i: nat)
    returns (path: seq<nat>)
    requires o.Valid() && IsRun(o, states, steps) && i < |states[|steps|].accepted| && NoWrap(o, steps)
    ensures var pages := states[|steps|].accepted;
            && IsChain(o, states, steps, path) && path[|path| - 1] == i
            && pages[i].depth == pages[path[0]].depth + |path| - 1
            && (|path| > 1 ==> pages[path[0]].depth + |path| - 1 <= o.maxDepth)
            && pages[i].depth < 0xFFFF_FFFF
    decreases i
  {
    hide IsStep, WasLinked, WasSubmitted;
    var pages := states[|steps|].accepted;
    var j := EveryPageHasASource(o, states, steps, i);
    if WasSubmitted(states, steps, pages[i], i) {
      path := [i];
      SubmittedDepth(o, states, steps, pages[i], i);
    } else {
      var rest := DepthIsDistance(o, states, steps, j);
      LinkedDepth(o, states, steps, pages[j], pages[i], i);
      path := rest + [i];
      assert path[..|rest|] == rest;
    }
  }

  lemma SubmittedDepth(o: Options, states: seq<State>, steps: seq<Step>, x: Item, i: nat)
    requires |states| == |steps| + 1 && WasSubmitted(states, steps, x, i) && NoWrap(o, steps)
    ensures x.depth < 0xFFFF_FFFF
  {
  }

  lemma LinkedDepth(o: Options, states: seq<State>, steps: seq<Step>, page: Item, x: Item, i: nat)
    requires |states| == |steps| + 1 && WasLinked(o, states, steps, page, x, i)
    requires page.depth < 0xFFFF_FFFF && o.maxDepth < 0xFFFF_FFFF
    ensures x.depth == page.depth + 1 <= o.maxDepth
  {
  }

  /** With all pages submitted at depth 0, an accepted page of depth `d` is `d` links away and within the limit. */
  lemma NothingFartherThanTheLimit(o: Options, states: seq<State>, steps: seq<Step>, i: nat)
    returns (path: seq<nat>)
    requires o.Valid() && IsRun(o, states, steps) && i < |states[|steps|].accepted| && o.maxDepth < 0xFFFF_FFFF
    requires forall m | 0 <= m < |steps| && steps[m].Submit? :: steps[m].depth == 0
    ensures IsChain(o, states, steps, path) && path[|path| - 1] == i
    ensures states[|steps|].accepted[i].depth == |path| - 1 <= o.maxDepth
  {
    hide IsStep, WasLinked;
    path := DepthIsDistance(o, states, steps, i);
  }
}
