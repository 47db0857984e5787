/** The pool's fields updated in place (class PooledTorProxyManager of src/tor_proxy_pool.cpp). */
module TorPool {
  import opened Bytes
  import opened TorPoolModel
  import opened Words

  datatype TorStatus = Unknown | Up | Down

  /** The status of a list of proxies: up when one of them answers, unknown when there is none. */
  function Aggregate(answers: seq<bool>): TorStatus {
    if answers == [] then Unknown else if true in answers then Up else Down
  }

  /** `aggregateProbe`: stops at the first proxy that answers. */
  method AggregateProbe(answers: seq<bool>) returns (status: TorStatus)
    ensures status == Aggregate(answers)
    ensures status == Up <==> true in answers
    ensures status == Unknown <==> answers == []
  {
    if answers == [] {
      return Unknown;
    }
    var i := 0;
    while i < |answers| && !answers[i]
      invariant i <= |answers| && true !in answers[..i]
    {
      i := i + 1;
    }
    assert answers[..|answers|] == answers;
    status := if i < |answers| then Up else Down;
  }

  class PooledTorProxyManager {
    const o: Options
    var eps: seq<Endpoint>
    var rr: nat
    var lastRotate: int
    var onionRequests: nat
    var lastProbe: TorStatus

    ghost function View(): Pool
      reads this
    {
      Pool(eps, rr, lastRotate, onionRequests)
    }

    /** The configured endpoints are taken as they are, duplicates included. */
    constructor (o: Options, proxies: seq<Endpoint>, now: int)
      ensures this.o == o && View() == Pool(proxies, 0, now, 0) && lastProbe == Unknown
    {
      this.o, eps, rr, lastRotate, onionRequests, lastProbe := o, proxies, 0, now, 0, Unknown;
    }

    method AddProxy(ep: Endpoint)
      modifies this`eps
      ensures View() == After(o, old(View()), Call.AddProxy(ep))
      ensures eps == if exists e :: e in old(eps) && e.host == ep.host && e.port == ep.port then old(eps)
                     else old(eps) + [ep]
      ensures old(Distinct(eps)) ==> Distinct(eps)
    {
      CallKeepsDistinct(View(), Call.AddProxy(ep));
      for i := 0 to |eps|
        invariant View() == old(View())
        invariant !Present(eps[..i], ep.host, ep.port)
      {
        assert eps[..i + 1] == eps[..i] + [eps[i]];
        if eps[i].Is(ep.host, ep.port) {
          return;
        }
      }
      assert eps[..|eps|] == eps;
      eps := eps + [ep];
    }

    lemma CallKeepsDistinct(p: Pool, c: Call)
      requires Fits(p, c)
      ensures Distinct(p.eps) ==> Distinct(TorPoolModel.After(o, p, c).eps)
    {
      if Distinct(p.eps) {
        DistinctIsKept(o, p, c);
      }
    }

    method RemoveProxy(host: bytes, port: nat)
      modifies this`eps
      ensures View() == After(o, old(View()), Call.RemoveProxy(host, port))
      ensures old(Distinct(eps)) ==> Distinct(eps) && !Present(eps, host, port)
    {
      if Distinct(eps) {
        RemovedIsDistinct(eps, host, port);
      }
      var kept: seq<Endpoint> := [];
      for i := 0 to |eps|
        invariant View() == old(View()) && kept == Removed(eps[..i], host, port)
      {
        assert eps[..i + 1][..i] == eps[..i];
        if !eps[i].Is(host, port) {
          kept := kept + [eps[i]];
        }
      }
      assert eps[..|eps|] == eps;
      eps := kept;
    }

    method CandidateList(now: int) returns (candidates: seq<nat>)
      ensures candidates == Candidates(o, eps, now)
    {
      candidates := [];
      for i := 0 to |eps|
        invariant candidates == Candidates(o, eps[..i], now)
      {
        assert eps[..i + 1][..i] == eps[..i];
        var e := eps[i];
        var cooled := now - e.lastProbe >= o.failureCooldown;
        if e.healthy {
          candidates := candidates + [i];
        } else if cooled {
          candidates := candidates + [i];
        }
      }
      assert eps[..|eps|] == eps;
    }

    /** The start of `selectProxy`: counts an onion request and rotates when the interval is over. */
    method Prepare(now: int, onion: bool)
      requires eps != []
      modifies this`eps, this`rr, this`lastRotate, this`onionRequests
      ensures View() == Prepared(o, old(View()), now, onion) && |eps| == |old(eps)|
    {
      if onion {
        onionRequests := (onionRequests + 1) % TWO_64;
      }
      if o.rotateInterval > 0 && now - lastRotate >= o.rotateInterval {
        MarkAllHealthy();
        rr := (rr + 1) % TWO_64 % |eps|;
        lastRotate := now;
      }
    }

    method SelectProxy(now: int, onion: bool, wall: int, up: bool, circuit: bytes) returns (r: Option<Endpoint>)
      modifies this`eps, this`rr, this`lastRotate, this`onionRequests
      ensures Selection(View(), r) == Select(o, old(View()), now, onion, wall, up, circuit)
      ensures r.Some? ==> exists i :: 0 <= i < |eps| && eps[i].healthy && eps[i].Is(r.value.host, r.value.port)
    {
      hide Candidates, Prepared;
      if eps == [] {
        return None;
      }
      Prepare(now, onion);
      ghost var q := View();
      var candidates := CandidateList(now);
      if candidates == [] {
        return None;
      }
      var pick := candidates[rr % |candidates|];
      rr := (rr + 1) % TWO_64;
      var chosen := eps[pick];
      if !chosen.healthy {
        chosen := chosen.(healthy := up, lastProbe := now);
        eps := eps[pick := chosen];
        if !chosen.healthy {
          return None;
        }
      }
      chosen := chosen.(lastUsed := wall);
      eps := eps[pick := chosen];
      assert eps == q.eps[pick := chosen];
      assert eps[pick].healthy && eps[pick].Is(chosen.host, chosen.port);
      r := Some(chosen.(username := circuit, password := circuit));
    }

    method MarkAllHealthy()
      modifies this`eps
      ensures eps == AllHealthy(old(eps))
    {
      for i := 0 to |eps|
        invariant |eps| == |old(eps)|
        invariant forall k | 0 <= k < i :: eps[k] == old(eps)[k].(healthy := true)
        invariant forall k | i <= k < |eps| :: eps[k] == old(eps)[k]
      {
        eps := eps[i := eps[i].(healthy := true)];
      }
    }

    /** The loop shared by the two reports: stops at the first match. */
    method Find(host: bytes, port: nat) returns (k: nat)
      ensures k == FirstMatch(eps, host, port)
    {
      k := 0;
      while k < |eps| && !eps[k].Is(host, port)
        invariant k <= |eps|
        invariant FirstMatch(eps, host, port) == k + FirstMatch(eps[k..], host, port)
      {
        assert eps[k..][1..] == eps[k + 1..];
        k := k + 1;
      }
    }

    method ReportSuccess(host: bytes, port: nat, latency: int)
      modifies this`eps
      ensures View() == After(o, old(View()), Call.ReportSuccess(host, port, latency))
      ensures !Present(old(eps), host, port) ==> eps == old(eps)
    {
      var k := Find(host, port);
      if k < |eps| {
        eps := eps[k := eps[k].(healthy := true, failures := 0, latency := latency)];
      }
    }

    /** In a pool of distinct endpoints, starts the quarantine of the endpoint. */
    method ReportFailure(host: bytes, port: nat, now: int)
      modifies this`eps
      ensures View() == After(o, old(View()), Call.ReportFailure(host, port, now))
      ensures old(Distinct(eps)) ==> Quarantined(eps, host, port, now)
      ensures forall k: nat |
                && k < |old(eps)| && old(eps)[k].host == host && old(eps)[k].port == port
                && forall i | 0 <= i < k :: !(old(eps)[i].host == host && old(eps)[i].port == port) ::
                eps == old(eps)[k := old(eps)[k].(healthy := false, lastProbe := now,
                                                  failures := (old(eps)[k].failures + 1) % 0x1_0000_0000)]
      ensures !Present(old(eps), host, port) ==> eps == old(eps)
    {
      FailureQuarantines(View(), host, port, now);
      var k := Find(host, port);
      if k < |eps| {
        eps := eps[k := eps[k].(healthy := false, failures := (eps[k].failures + 1) % TWO_32, lastProbe := now)];
      }
    }

    /**
      `probe`: first the proxies of a copy of the list, then, under the lock, those of the list itself. The two
      lists can differ, so the status returned need not agree with the health noted.
      */
    method Probe(answers: seq<bool>, results: seq<Probed>) returns (status: TorStatus)
      requires |results| == |eps|
      modifies this`eps, this`lastProbe
      ensures View() == After(o, old(View()), ProbeAll(results))
      ensures status == lastProbe == Aggregate(answers)
      ensures |eps| == |old(eps)| && forall i | 0 <= i < |eps| ::
                eps[i] == old(eps)[i].(healthy := results[i].up, lastProbe := results[i].at)
    {
      status := AggregateProbe(answers);
      lastProbe := status;
      for i := 0 to |eps|
        invariant |eps| == |old(eps)| && View() == old(View()).(eps := eps) && lastProbe == status
        invariant forall k | 0 <= k < i :: eps[k] == ProbedAll(old(eps), results)[k]
        invariant forall k | i <= k < |eps| :: eps[k] == old(eps)[k]
      {
        eps := eps[i := eps[i].(healthy := results[i].up, lastProbe := results[i].at)];
      }
    }

    method ProbeEndpoint(host: bytes, port: nat, result: Probed)
      modifies this`eps
      ensures View() == After(o, old(View()), Call.ProbeEndpoint(host, port, result))
      ensures |eps| == |old(eps)| && forall i | 0 <= i < |eps| ::
                eps[i] == if old(eps)[i].host == host && old(eps)[i].port == port
                          then old(eps)[i].(healthy := result.up, lastProbe := result.at) else old(eps)[i]
    {
      for i := 0 to |eps|
        invariant |eps| == |old(eps)| && View() == old(View()).(eps := eps)
        invariant forall k | 0 <= k < i :: eps[k] == ProbedOne(old(eps), host, port, result)[k]
        invariant forall k | i <= k < |eps| :: eps[k] == old(eps)[k]
      {
        if eps[i].Is(host, port) {
          eps := eps[i := eps[i].(healthy := result.up, lastProbe := result.at)];
        }
      }
    }
  }
}
