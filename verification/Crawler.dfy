/**
  The crawler's shared fields, updated in place by its critical sections (src/crawler.cpp). Each method
  is one section under the lock and performs one step of the frontier.
  */
module Crawler {
  import opened Bytes
  import opened BloomFilter
  import opened Frontier
  import Links
  import opened Words

  lemma JoinedIsDrained(o: Options, s: State)
    requires o.Valid() && Invariant(o, s) && Enabled(o, s, Join)
    ensures s.queue == [] && s.pending == 0 && s.crawled == |s.accepted|
  {
    hide Numbered, Ordered, Filtered;
    TotalCount(o, s);
    InFlightOfIdle(s.workers);
    assert s.workers != [] ==> SomeExited(s.workers);
  }

  lemma SeenAreAccepted(o: Options, s: State)
    requires o.Valid() && Invariant(o, s)
    ensures |s.seen| == |s.accepted|
  {
    DistinctUrlCount(s.accepted, s.seen);
  }

  /** The top of the priority queue: no item is better. */
  method Top(queue: seq<Item>) returns (k: nat)
    requires queue != []
    ensures k == Best(queue)
  {
    k := 0;
    for i := 1 to |queue|
      invariant k < i && k == Best(queue[..i])
    {
      assert queue[..i + 1][..i] == queue[..i];
      if Better(queue[i], queue[k]) {
        k := i;
      }
    }
    assert queue[..|queue|] == queue;
  }

  /** The item an accepted URL becomes, and the workers the first one starts: at least one. */
  lemma WhatIsAccepted(o: Options, s: State, url: bytes, depth: nat, priority: int)
    requires o.Valid() && Invariant(o, s) && depth < TWO_32
    ensures var s' := Accept(o, s, url, depth, priority);
            && s'.accepted == s.accepted + [Item(url, depth,
                 if priority >= 0 then priority else if depth < 0x8000_0000 then depth else depth - 0x1_0000_0000,
                 |s.accepted|)]
            && (!s.running ==> |s'.workers| == if o.workerCount == 0 then 1 else o.workerCount)
  {
    hide Partitioned, Ordered, Filtered;
  }

  /** A link taken lies one level below its page. */
  lemma WhatIsTaken(o: Options, s: State, w: nat)
    requires o.Valid() && Enabled(o, s, Follow(w)) && s.workers[w].item.depth < 0xFFFF_FFFF
    ensures var s' := After(o, s, Follow(w));
            var Following(page, links), n := s.workers[w], |s.accepted|;
            |s'.accepted| > n ==> s'.accepted[n].url == links[0] && s'.accepted[n].depth == page.depth + 1
  {
  }

  class Crawler {
    const o: Options
    const bloom: BloomFilter
    var queue: seq<Item>
    var seenUrls: set<bytes>
    var pending: int
    var crawled: nat
    var nextSeq: nat
    var stopped: bool
    var running: bool
    var joining: bool
    var workers: seq<Worker>
    ghost var accepted: seq<Item>
    ghost var dequeued: seq<Item>
    ghost var finished: seq<Item>

    ghost function View(): State
      reads this, bloom, bloom.bits
    {
      State(queue, seenUrls, bloom.SetBits(), pending, crawled, nextSeq, stopped, running, joining, workers,
            accepted, dequeued, finished)
    }

    ghost predicate Valid()
      reads this, bloom, bloom.bits
    {
      && o.Valid() && bloom.Valid() && bloom.g == o.bloom
      && Invariant(o, View())
    }

    constructor (o: Options)
      requires o.Valid()
      ensures Valid() && View() == INITIAL && this.o == o
    {
      this.o := o;
      bloom := new BloomFilter(o.bloom);
      queue, seenUrls, pending, crawled, nextSeq := [], {}, 0, 0, 0;
      stopped, running, joining, workers := false, false, false, [];
      accepted, dequeued, finished := [], [], [];
      new;
      InitiallyTrue(o);
    }

    /** `enqueue`: true exactly when the URL is new, there is room and nobody has called stop. */
    method Enqueue(url: bytes, depth: nat, priority: int) returns (ok: bool)
      requires Valid() && depth < TWO_32
      modifies this, bloom.bits
      ensures Valid()
      ensures Enqueued(View(), ok) == Frontier.Enqueue(o, old(View()), url, depth, priority)
      ensures ok <==> !old(stopped) && |old(seenUrls)| < o.maxPages && url !in old(seenUrls)
      ensures ok ==> accepted == old(accepted) + [Item(url, depth,
                if priority >= 0 then priority else if depth < 0x8000_0000 then depth else depth - 0x1_0000_0000,
                |old(accepted)|)]
      ensures ok && !old(running) ==> |workers| == (if o.workerCount == 0 then 1 else o.workerCount)
      ensures |old(workers)| <= |workers|
    {
      hide Invariant, BloomFilter.SetBits, BloomFilter.Valid, Probes, Accept;
      WhatIsAccepted(o, View(), url, depth, priority);
      EnqueueKeepsInvariant(o, View(), url, depth, priority);
      VerdictIsExact(o, View(), url, depth, priority);
      SeenAreAccepted(o, View());
      if stopped {
        return false;
      }
      if crawled + pending >= o.maxPages {
        return false;
      }
      var maybe := bloom.MaybeContains(url);
      if maybe {
        if url in seenUrls {
          return false;
        }
      }
      if url in seenUrls {
        return false;
      }
      Admit(url, depth, priority);
      ok := true;
    }

    /** The accepting half of `enqueue`. */
    method Admit(url: bytes, depth: nat, priority: int)
      requires o.Valid() && bloom.Valid() && bloom.g == o.bloom && depth < TWO_32
      modifies this, bloom.bits
      ensures bloom.Valid() && View() == Accept(o, old(View()), url, depth, priority)
      ensures |old(workers)| <= |workers|
    {
      hide Invariant, BloomFilter.SetBits, Probes;
      seenUrls := seenUrls + {url};
      bloom.Insert(url);
      var item := Item(url, depth, if priority < 0 then ToInt(depth) else priority, nextSeq);
      nextSeq := nextSeq + 1;
      queue := queue + [item];
      pending := pending + 1;
      if !running {
        running := true;
        SpawnWorkers(if o.workerCount > 1 then o.workerCount else 1);
      }
      accepted := accepted + [item];
    }

    method SpawnWorkers(count: nat)
      modifies this`workers
      ensures workers == old(workers) + seq(count, _ => Waiting)
    {
      for i := 0 to count
        invariant workers == old(workers) + seq(i, _ => Waiting)
      {
        workers := workers + [Waiting];
      }
    }

    /** The first critical section of `workerLoop`: takes the top of the priority queue. */
    method TakeNext(w: nat) returns (item: Item)
      requires Valid() && Enabled(o, View(), Dequeue(w))
      modifies this
      ensures Valid() && View() == After(o, old(View()), Dequeue(w))
      ensures item == old(queue)[Best(old(queue))]
      ensures forall i | 0 <= i < |old(queue)| :: !Better(old(queue)[i], item)
    {
      hide Invariant, BloomFilter.SetBits, BloomFilter.Valid, Probes, Best;
      StepKeepsInvariant(o, View(), Dequeue(w));
      var k := Top(queue);
      item := queue[k];
      queue := queue[..k] + queue[k + 1..];
      workers := workers[w := Processing(item)];
      dequeued := dequeued + [item];
    }

    /** The page could not be had: blocked by robots.txt, or the fetch failed. */
    method GiveUp(w: nat)
      requires Valid() && Enabled(o, View(), Abandon(w))
      modifies this
      ensures Valid() && View() == After(o, old(View()), Abandon(w))
    {
      hide Invariant, BloomFilter.SetBits, BloomFilter.Valid, Probes, Best;
      StepKeepsInvariant(o, View(), Abandon(w));
      workers := workers[w := Following(workers[w].item, [])];
    }

    /** The page was fetched; its links are followed when the depth budget allows. */
    method PageFetched(w: nat, links: seq<bytes>)
      requires Valid() && Enabled(o, View(), Fetched(w, links))
      modifies this
      ensures var page := old(workers)[w].item;
              |workers| == |old(workers)| && (page.depth < 0xFFFF_FFFF ==>
                workers[w] == Following(page, if page.depth + 1 <= o.maxDepth then links else []))
      ensures Valid() && View() == After(o, old(View()), Fetched(w, links))
    {
      hide Invariant, BloomFilter.SetBits, BloomFilter.Valid, Probes, Best;
      StepKeepsInvariant(o, View(), Fetched(w, links));
      var item := workers[w].item;
      var follow := if (item.depth + 1) % TWO_32 <= o.maxDepth then links else [];
      workers := workers[w := Following(item, follow)];
    }

    /** One round of the link loop in `process`: a rejected link ends the loop. */
    method FollowLink(w: nat)
      requires Valid() && Enabled(o, View(), Follow(w))
      modifies this, bloom.bits
      ensures var page, n := old(workers)[w].item, |old(accepted)|;
              page.depth < 0xFFFF_FFFF && |accepted| > n ==>
                accepted[n].url == old(workers)[w].links[0] && accepted[n].depth == page.depth + 1
      ensures Valid() && View() == After(o, old(View()), Follow(w))
    {
      hide Invariant, BloomFilter.SetBits, BloomFilter.Valid, Probes, Best, Frontier.Enqueue, ToInt;
      if workers[w].item.depth < 0xFFFF_FFFF {
        WhatIsTaken(o, View(), w);
      }
      StepKeepsInvariant(o, View(), Follow(w));
      var item, links := workers[w].item, workers[w].links;
      var depth := (item.depth + 1) % TWO_32;
      var ok := Enqueue(links[0], depth, ToInt(depth));
      workers := workers[w := Following(item, if ok then links[1..] else [])];
    }

    /** The link loop of `process` when no other thread comes between its rounds. */
    method FollowLinks(w: nat)
      requires Valid() && Links.IsFollowing(View(), w)
      modifies this, bloom.bits
      ensures Valid() && View() == Links.Loop(o, old(View()), w)
      ensures |accepted| == |old(accepted)| + |old(workers)[w].links| <==>
              Links.AllNew(o, old(View()), old(workers)[w].links)
    {
      hide Invariant, BloomFilter.SetBits, BloomFilter.Valid, Probes, Best, After, Links.AllNew;
      Links.LoopTakesAllExactly(o, View(), w);
      while workers[w].links != []
        invariant Valid() && Links.IsFollowing(View(), w)
        invariant Links.Loop(o, View(), w) == Links.Loop(o, old(View()), w)
        decreases |workers[w].links|
      {
        Links.FollowRound(o, View(), w);
        FollowLink(w);
      }
    }

    /** The second critical section of `workerLoop`. */
    method FinishItem(w: nat)
      requires Valid() && Enabled(o, View(), Finish(w))
      modifies this
      ensures Valid() && View() == After(o, old(View()), Finish(w))
    {
      hide Invariant, BloomFilter.SetBits, BloomFilter.Valid, Probes, Best;
      StepKeepsInvariant(o, View(), Finish(w));
      finished := finished + [workers[w].item];
      workers := workers[w := Waiting];
      pending := pending - 1;
      crawled := crawled + 1;
    }

    /** The worker's return from `workerLoop`: only when stopped, with nothing left in the queue. */
    method Leave(w: nat)
      requires Valid() && Enabled(o, View(), Exit(w))
      modifies this
      ensures Valid() && View() == After(o, old(View()), Exit(w))
    {
      hide Invariant, BloomFilter.SetBits, BloomFilter.Valid, Probes, Best;
      StepKeepsInvariant(o, View(), Exit(w));
      workers := workers[w := Exited];
    }

    /** The locked part of `stop`: the first caller goes on to join the workers. */
    method Halt() returns (shouldJoin: bool)
      requires Valid()
      modifies this
      ensures Valid() && View() == After(o, old(View()), Stop)
      ensures shouldJoin == !old(stopped)
    {
      hide Invariant, BloomFilter.SetBits, BloomFilter.Valid, Probes, Best;
      StepKeepsInvariant(o, View(), Stop);
      shouldJoin := !stopped;
      if shouldJoin {
        joining := true;
      }
      stopped := true;
    }

    /** The rest of `stop`, once every worker is gone: nothing accepted is left uncrawled. */
    method JoinWorkers()
      requires Valid() && Enabled(o, View(), Join)
      modifies this
      ensures Valid() && View() == After(o, old(View()), Join)
      ensures queue == [] && pending == 0 && crawled == |accepted|
    {
      hide Invariant, BloomFilter.SetBits, BloomFilter.Valid, Probes, Best;
      StepKeepsInvariant(o, View(), Join);
      JoinedIsDrained(o, View());
      workers := [];
      running := false;
      joining := false;
    }
  }
}
