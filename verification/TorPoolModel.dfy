/**
  The pool of Tor endpoints of src/tor_proxy_pool.cpp as a value. Clock readings and probe results are
  inputs of the calls that take them.
  */
module TorPoolModel {
  import opened Bytes
  import opened Words

  datatype Option<+T> = None | Some(value: T)

  datatype Endpoint = Endpoint(
    host: bytes, port: nat, username: bytes, password: bytes,
    healthy: bool, failures: nat, latency: int, lastUsed: int, lastProbe: int)
  {
    predicate Is(host: bytes, port: nat) {
      this.host == host && this.port == port
    }
  }

  /** The rotation interval (0 for never) and the cooldown after a failure, in clock units. */
  datatype Options = Options(rotateInterval: int, failureCooldown: int)

  datatype Pool = Pool(eps: seq<Endpoint>, rr: nat, lastRotate: int, onionRequests: nat)

  // ----- Adding and removing -----

  predicate Present(eps: seq<Endpoint>, host: bytes, port: nat) {
    exists i | 0 <= i < |eps| :: eps[i].Is(host, port)
  }

  /** The position of the first such endpoint, or the length of the list. */
  function FirstMatch(eps: seq<Endpoint>, host: bytes, port: nat): (k: nat)
    ensures k <= |eps|
    ensures k < |eps| ==> eps[k].Is(host, port)
    ensures forall i | 0 <= i < k :: !eps[i].Is(host, port)
  {
    if eps == [] || eps[0].Is(host, port) then 0 else 1 + FirstMatch(eps[1..], host, port)
  }

  function Removed(eps: seq<Endpoint>, host: bytes, port: nat): seq<Endpoint> {
    if eps == [] then []
    else Removed(eps[..|eps| - 1], host, port)
         + if eps[|eps| - 1].Is(host, port) then [] else [eps[|eps| - 1]]
  }

  // ----- Selecting -----

  predicate RotationDue(o: Options, p: Pool, now: int) {
    o.rotateInterval > 0 && now - p.lastRotate >= o.rotateInterval
  }

  function AllHealthy(eps: seq<Endpoint>): seq<Endpoint> {
    seq(|eps|, i requires 0 <= i < |eps| => eps[i].(healthy := true))
  }

  function Rotate(o: Options, p: Pool, now: int): Pool
    requires p.eps != []
  {
    if RotationDue(o, p, now) then
      p.(eps := AllHealthy(p.eps), rr := (p.rr + 1) % TWO_64 % |p.eps|, lastRotate := now)
    else p
  }

  predicate Cooled(o: Options, e: Endpoint, now: int) {
    now - e.lastProbe >= o.failureCooldown
  }

  /** The positions that may be chosen: healthy endpoints, and failed ones whose cooldown is over. */
  function Candidates(o: Options, eps: seq<Endpoint>, now: int): (c: seq<nat>)
    ensures forall k | 0 <= k < |c| :: c[k] < |eps| && (eps[c[k]].healthy || Cooled(o, eps[c[k]], now))
  {
    if eps == [] then []
    else
      var n := |eps| - 1;
      Candidates(o, eps[..n], now) + if eps[n].healthy || Cooled(o, eps[n], now) then [n] else []
  }

  datatype Selection = Selection(pool: Pool, result: Option<Endpoint>)

  /** The state in which the pick is made: the request counted and a due rotation done. */
  function Prepared(o: Options, p: Pool, now: int, onion: bool): Pool
    requires p.eps != []
  {
    Rotate(o, p.(onionRequests := if onion then (p.onionRequests + 1) % TWO_64 else p.onionRequests), now)
  }

  function PickIn(o: Options, p: Pool, now: int): (i: nat)
    requires Candidates(o, p.eps, now) != []
    ensures i < |p.eps| && (p.eps[i].healthy || Cooled(o, p.eps[i], now))
  {
    var c := Candidates(o, p.eps, now);
    c[p.rr % |c|]
  }

  /** `selectProxy`, with `up` the answer of the probe if one is made and `circuit` the isolation name. */
  function Select(o: Options, p: Pool, now: int, onion: bool, wall: int, up: bool, circuit: bytes): Selection {
    if p.eps == [] then Selection(p, None)
    else
      var q := Prepared(o, p, now, onion);
      if Candidates(o, q.eps, now) == [] then Selection(q, None)
      else
        var i := PickIn(o, q, now);
        var next := q.(rr := (q.rr + 1) % TWO_64);
        var e := q.eps[i];
        if !e.healthy && !up then
          Selection(next.(eps := q.eps[i := e.(healthy := false, lastProbe := now)]), None)
        else
          var chosen := (if e.healthy then e else e.(healthy := true, lastProbe := now)).(lastUsed := wall);
          Selection(next.(eps := q.eps[i := chosen]), Some(chosen.(username := circuit, password := circuit)))
  }

  // ----- Reports and probes -----

  function Succeeded(eps: seq<Endpoint>, host: bytes, port: nat, latency: int): seq<Endpoint> {
    var k := FirstMatch(eps, host, port);
    if k == |eps| then eps else eps[k := eps[k].(healthy := true, failures := 0, latency := latency)]
  }

  function Failed(eps: seq<Endpoint>, host: bytes, port: nat, at: int): seq<Endpoint> {
    var k := FirstMatch(eps, host, port);
    if k == |eps| then eps
    else eps[k := eps[k].(healthy := false, failures := (eps[k].failures + 1) % TWO_32, lastProbe := at)]
  }

  /** The result of one probe and the time it was noted. */
  datatype Probed = Probed(up: bool, at: int)

  function ProbedAll(eps: seq<Endpoint>, results: seq<Probed>): seq<Endpoint>
    requires |results| == |eps|
  {
    seq(|eps|, i requires 0 <= i < |eps| => eps[i].(healthy := results[i].up, lastProbe := results[i].at))
  }

  function ProbedOne(eps: seq<Endpoint>, host: bytes, port: nat, r: Probed): seq<Endpoint> {
    seq(|eps|, i requires 0 <= i < |eps| =>
      if eps[i].Is(host, port) then eps[i].(healthy := r.up, lastProbe := r.at) else eps[i])
  }

  // ----- Calls and histories -----

  datatype Call =
    | AddProxy(ep: Endpoint)
    | RemoveProxy(host: bytes, port: nat)
    | SelectProxy(now: int, onion: bool, wall: int, up: bool, circuit: bytes)
    | ReportSuccess(host: bytes, port: nat, latency: int)
    | ReportFailure(host: bytes, port: nat, at: int)
    | ProbeAll(results: seq<Probed>)
    | ProbeEndpoint(host: bytes, port: nat, result: Probed)

  predicate Fits(p: Pool, c: Call) {
    c.ProbeAll? ==> |c.results| == |p.eps|
  }

  function After(o: Options, p: Pool, c: Call): Pool
    requires Fits(p, c)
  {
    match c
    case AddProxy(ep) => if Present(p.eps, ep.host, ep.port) then p else p.(eps := p.eps + [ep])
    case RemoveProxy(host, port) => p.(eps := Removed(p.eps, host, port))
    case SelectProxy(now, onion, wall, up, circuit) => Select(o, p, now, onion, wall, up, circuit).pool
    case ReportSuccess(host, port, latency) => p.(eps := Succeeded(p.eps, host, port, latency))
    case ReportFailure(host, port, at) => p.(eps := Failed(p.eps, host, port, at))
    case ProbeAll(results) => p.(eps := ProbedAll(p.eps, results))
    case ProbeEndpoint(host, port, r) => p.(eps := ProbedOne(p.eps, host, port, r))
  }

  ghost predicate IsHistory(o: Options, pools: seq<Pool>, calls: seq<Call>) {
    && |pools| == |calls| + 1
    && forall i | 0 <= i < |calls| :: Fits(pools[i], calls[i]) && pools[i + 1] == After(o, pools[i], calls[i])
  }

  // ----- Distinct endpoints -----

  ghost predicate Distinct(eps: seq<Endpoint>) {
    forall i, j | 0 <= i < j < |eps| :: !eps[i].Is(eps[j].host, eps[j].port)
  }

  /** Only health and clocks differ. */
  ghost predicate SameNames(eps: seq<Endpoint>, eps': seq<Endpoint>) {
    |eps| == |eps'| && forall i | 0 <= i < |eps| :: eps'[i].Is(eps[i].host, eps[i].port)
  }

  lemma {:induction false} RemovedKeeps(eps: seq<Endpoint>, host: bytes, port: nat, q: Endpoint -> bool)
    requires forall i | 0 <= i < |eps| :: q(eps[i])
    ensures forall i | 0 <= i < |Removed(eps, host, port)| :: q(Removed(eps, host, port)[i])
  {
    if eps != [] {
      RemovedKeeps(eps[..|eps| - 1], host, port, q);
    }
  }

  /** An endpoint stays in its place between what is left before and behind it, unless it has the name. */
  lemma {:induction false} RemovedExactly(a: seq<Endpoint>, e: Endpoint, b: seq<Endpoint>, host: bytes, port: nat)
    ensures Removed(a + [e] + b, host, port) ==
            Removed(a, host, port) + (if e.host == host && e.port == port then [] else [e]) + Removed(b, host, port)
    ensures Removed([], host, port) == []
    decreases |b|
  {
    var all := a + [e] + b;
    if b == [] {
      assert all == a + [e] && all[..|all| - 1] == a;
    } else {
      assert all[..|all| - 1] == a + [e] + b[..|b| - 1];
      RemovedExactly(a, e, b[..|b| - 1], host, port);
    }
  }

  lemma {:induction false} RemovedIsDistinct(eps: seq<Endpoint>, host: bytes, port: nat)
    requires Distinct(eps)
    ensures Distinct(Removed(eps, host, port))
    ensures !Present(Removed(eps, host, port), host, port)
  {
    if eps != [] {
      var n := |eps| - 1;
      RemovedIsDistinct(eps[..n], host, port);
      RemovedKeeps(eps[..n], host, port, (e: Endpoint) => !e.Is(eps[n].host, eps[n].port));
    }
  }

  lemma SelectKeepsNames(o: Options, p: Pool, now: int, onion: bool, wall: int, up: bool, circuit: bytes)
    ensures SameNames(p.eps, Select(o, p, now, onion, wall, up, circuit).pool.eps)
  {
    hide Candidates;
  }

  /** A pool without duplicates stays so under every call. */
  lemma DistinctIsKept(o: Options, p: Pool, c: Call)
    requires Distinct(p.eps) && Fits(p, c)
    ensures Distinct(After(o, p, c).eps)
  {
    hide Select;
    match c
    case AddProxy(ep) =>
    case RemoveProxy(host, port) => RemovedIsDistinct(p.eps, host, port);
    case SelectProxy(now, onion, wall, up, circuit) =>
      SelectKeepsNames(o, p, now, onion, wall, up, circuit);
    case _ => assert SameNames(p.eps, After(o, p, c).eps);
  }

  // ----- Selection -----

  lemma {:induction false} CandidatesComplete(o: Options, eps: seq<Endpoint>, now: int, i: nat)
    requires i < |eps| && (eps[i].healthy || Cooled(o, eps[i], now))
    ensures i in Candidates(o, eps, now)
  {
    var n := |eps| - 1;
    if i < n {
      assert eps[..n][i] == eps[i];
      CandidatesComplete(o, eps[..n], now, i);
    }
  }

  /** Whatever is returned is an endpoint of the pool, marked healthy there, under its own circuit name. */
  lemma SelectedIsHealthy(o: Options, p: Pool, now: int, onion: bool, wall: int, up: bool, circuit: bytes)
    returns (i: nat)
    requires Select(o, p, now, onion, wall, up, circuit).result.Some?
    ensures var s := Select(o, p, now, onion, wall, up, circuit);
            && i < |s.pool.eps| == |p.eps|
            && s.pool.eps[i].healthy
            && s.result.value == s.pool.eps[i].(username := circuit, password := circuit)
            && p.eps[i].Is(s.result.value.host, s.result.value.port)
            && (p.eps[i].healthy || RotationDue(o, p, now) || (up && Cooled(o, p.eps[i], now)))
  {
    hide Candidates;
    i := PickIn(o, Prepared(o, p, now, onion), now);
  }

  /**
    Nothing is returned exactly when no endpoint may be chosen, or the one whose turn it is has to be
    probed again and is down; the health of the others does not matter then.
    */
  lemma NothingSelected(o: Options, p: Pool, now: int, onion: bool, wall: int, up: bool, circuit: bytes)
    ensures Select(o, p, now, onion, wall, up, circuit).result == None <==>
            || p.eps == []
            || (!RotationDue(o, p, now)
                && ((forall i | 0 <= i < |p.eps| :: !p.eps[i].healthy && !Cooled(o, p.eps[i], now))
                    || (!up && Candidates(o, p.eps, now) != [] && !p.eps[PickIn(o, p, now)].healthy)))
  {
    if p.eps != [] {
      var q := Prepared(o, p, now, onion);
      forall i | 0 <= i < |q.eps| && (q.eps[i].healthy || Cooled(o, q.eps[i], now))
        ensures Candidates(o, q.eps, now) != []
      {
        CandidatesComplete(o, q.eps, now, i);
      }
      var c := Candidates(o, q.eps, now);
      hide Candidates;
      if c != [] {
        assert c[0] < |q.eps|;
      }
      assert RotationDue(o, p, now) ==> q.eps[0].healthy;
      assert !RotationDue(o, p, now) ==> q.eps == p.eps && q.rr == p.rr;
    }
  }

  /** A healthy endpoint does not help when it is the turn of another that turns out to be down. */
  lemma NoneThoughOneIsHealthy(o: Options, up: Endpoint, down: Endpoint, now: int)
    requires o.rotateInterval <= 0 && up.healthy && !down.healthy && Cooled(o, down, now)
    ensures Select(o, Pool([up, down], 1, 0, 0), now, false, 0, false, []).result == None
  {
    var eps := [up, down];
    assert eps[..1] == [up] && [up][..0] == [];
    assert Candidates(o, [], now) == [];
    assert Candidates(o, [up], now) == [0];
    assert Candidates(o, eps, now) == [0, 1];
  }

  // ----- Quarantine -----

  /** Every copy of the endpoint is down and was last probed no earlier than `t`. */
  ghost predicate Quarantined(eps: seq<Endpoint>, host: bytes, port: nat, t: int) {
    forall i | 0 <= i < |eps| && eps[i].Is(host, port) :: !eps[i].healthy && eps[i].lastProbe >= t
  }

  /** Every copy of the endpoint after the first is down and was last probed no earlier than `t`. */
  ghost predicate OtherCopiesDown(eps: seq<Endpoint>, host: bytes, port: nat, t: int) {
    forall i | FirstMatch(eps, host, port) < i < |eps| && eps[i].Is(host, port) ::
      !eps[i].healthy && eps[i].lastProbe >= t
  }

  /** A failure report takes care of the first copy; a pool of distinct endpoints has no other. */
  lemma FailureQuarantines(p: Pool, host: bytes, port: nat, t: int)
    ensures OtherCopiesDown(p.eps, host, port, t) ==> Quarantined(Failed(p.eps, host, port, t), host, port, t)
    ensures Distinct(p.eps) ==> OtherCopiesDown(p.eps, host, port, t)
  {
    var k, after := FirstMatch(p.eps, host, port), Failed(p.eps, host, port, t);
    assert forall i | 0 <= i < |p.eps| && i != k :: after[i] == p.eps[i];
    if k < |p.eps| && Distinct(p.eps) {
      assert forall i | k < i < |p.eps| :: !p.eps[k].Is(p.eps[i].host, p.eps[i].port);
    }
  }

  /**
    The calls that leave a quarantine alone: no success report or successful probe for the endpoint, no
    rotation, no adding it back, and no clock reading before `t` noted for it.
    */
  ghost predicate Harmless(o: Options, p: Pool, c: Call, host: bytes, port: nat, t: int)
    requires Fits(p, c)
  {
    match c
    case AddProxy(ep) => ep.Is(host, port) ==> Present(p.eps, host, port)
    case RemoveProxy(_, _) => true
    case SelectProxy(now, onion, wall, up, circuit) =>
      && !RotationDue(o, p, now)
      && (now < t + o.failureCooldown || !up
          || Candidates(o, p.eps, now) == [] || !p.eps[PickIn(o, p, now)].Is(host, port))
    case ReportSuccess(h, q, _) => !(h == host && q == port)
    case ReportFailure(h, q, at) => h == host && q == port ==> at >= t
    case ProbeAll(results) =>
      forall i | 0 <= i < |p.eps| && p.eps[i].Is(host, port) :: !results[i].up && results[i].at >= t
    case ProbeEndpoint(h, q, r) => h == host && q == port ==> !r.up && r.at >= t
  }

  lemma SelectKeepsQuarantine(o: Options, p: Pool, c: Call, host: bytes, port: nat, t: int)
    requires o.failureCooldown >= 0
    requires c.SelectProxy? && Harmless(o, p, c, host, port, t) && Quarantined(p.eps, host, port, t)
    ensures Quarantined(After(o, p, c).eps, host, port, t)
    ensures var s := Select(o, p, c.now, c.onion, c.wall, c.up, c.circuit);
            c.now < t + o.failureCooldown && s.result.Some? ==> !s.result.value.Is(host, port)
  {
    hide Candidates;
    if p.eps != [] {
      var q := Prepared(o, p, c.now, c.onion);
      assert q.eps == p.eps && q.rr == p.rr;
    }
  }

  lemma CallKeepsQuarantine(o: Options, p: Pool, c: Call, host: bytes, port: nat, t: int)
    requires o.failureCooldown >= 0
    requires Fits(p, c) && Harmless(o, p, c, host, port, t) && Quarantined(p.eps, host, port, t)
    ensures Quarantined(After(o, p, c).eps, host, port, t)
  {
    hide Select, PickIn;
    match c
    case AddProxy(ep) =>
    case RemoveProxy(h, q) =>
      RemovedKeeps(p.eps, h, q, (e: Endpoint) => e.Is(host, port) ==> !e.healthy && e.lastProbe >= t);
    case SelectProxy(_, _, _, _, _) => SelectKeepsQuarantine(o, p, c, host, port, t);
    case ReportSuccess(h, q, _) => assert forall i | 0 <= i < |p.eps| && p.eps[i].Is(host, port) ::
                                       Succeeded(p.eps, h, q, c.latency)[i] == p.eps[i];
    case ReportFailure(h, q, at) =>
    case ProbeAll(results) =>
    case ProbeEndpoint(h, q, r) =>
  }

  lemma {:induction false} QuarantineLasts(
    o: Options, pools: seq<Pool>, calls: seq<Call>, k: nat, host: bytes, port: nat, t: int)
    requires o.failureCooldown >= 0 && IsHistory(o, pools, calls) && k < |pools|
    requires Quarantined(pools[0].eps, host, port, t)
    requires forall i | 0 <= i < |calls| :: Fits(pools[i], calls[i]) && Harmless(o, pools[i], calls[i], host, port, t)
    ensures Quarantined(pools[k].eps, host, port, t)
  {
    hide After, Harmless, Quarantined;
    if k > 0 {
      QuarantineLasts(o, pools, calls, k - 1, host, port, t);
      CallKeepsQuarantine(o, pools[k - 1], calls[k - 1], host, port, t);
    }
  }

  ghost predicate AllHarmless(o: Options, pools: seq<Pool>, calls: seq<Call>, host: bytes, port: nat, t: int)
    requires |pools| == |calls| + 1
  {
    forall i | 0 <= i < |calls| :: Fits(pools[i], calls[i]) && Harmless(o, pools[i], calls[i], host, port, t)
  }

  /** The call selects, and returns the endpoint. */
  predicate Returns(o: Options, p: Pool, c: Call, host: bytes, port: nat) {
    && c.SelectProxy?
    && var s := Select(o, p, c.now, c.onion, c.wall, c.up, c.circuit);
       s.result.Some? && s.result.value.Is(host, port)
  }

  /**
    After a failure reported at `t` for an endpoint whose other copies, if it has any, are down, whatever
    harmless calls follow and however they interleave, no selection made before the cooldown is over
    returns that endpoint.
    */
  lemma NotSelectedDuringCooldown(
    o: Options, before: Pool, pools: seq<Pool>, calls: seq<Call>, k: nat, host: bytes, port: nat, t: int)
    requires o.failureCooldown >= 0 && OtherCopiesDown(before.eps, host, port, t)
    requires IsHistory(o, pools, calls) && pools[0] == After(o, before, ReportFailure(host, port, t))
    requires AllHarmless(o, pools, calls, host, port, t)
    requires k < |calls| && calls[k].SelectProxy? && calls[k].now < t + o.failureCooldown
    ensures !Returns(o, pools[k], calls[k], host, port)
  {
    FailureQuarantines(before, host, port, t);
    QuarantineLasts(o, pools, calls, k, host, port, t);
    SelectKeepsQuarantine(o, pools[k], calls[k], host, port, t);
  }

  /** With two copies of an endpoint in the pool, the very next selection can return it. */
  lemma DuplicatesDefeatQuarantine(o: Options, e: Endpoint, t: int)
    requires e.healthy && o.rotateInterval <= 0 && o.failureCooldown > 0
    ensures var p := Pool(Failed([e, e], e.host, e.port, t), 0, 0, 0);
            var s := Select(o, p, t, false, 0, false, []);
            s.result.Some? && s.result.value.Is(e.host, e.port)
  {
    var eps := Failed([e, e], e.host, e.port, t);
    assert FirstMatch([e, e], e.host, e.port) == 0;
    assert eps[1] == e;
    CandidatesComplete(o, eps, t, 1);
    assert Candidates(o, eps[..1], t) == [] by {
      assert eps[..1][..0] == [];
    }
  }

  // ----- Exactly when a failure keeps an endpoint away -----

  predicate Eligible(o: Options, e: Endpoint, now: int) {
    e.healthy || Cooled(o, e, now)
  }

  lemma {:induction false} SameCandidates(o: Options, a: seq<Endpoint>, b: seq<Endpoint>, now: int)
    requires |a| == |b| && forall i | 0 <= i < |a| :: Eligible(o, a[i], now) == Eligible(o, b[i], now)
    ensures Candidates(o, a, now) == Candidates(o, b, now)
  {
    if a != [] {
      SameCandidates(o, a[..|a| - 1], b[..|b| - 1], now);
    }
  }

  /** A selection whose probe, if one is made, answers up. */
  function UpCall(now: int): Call {
    SelectProxy(now, false, 0, true, [])
  }

  /** It returns the endpoint at the cursor, moves the cursor on and leaves the candidates as they are. */
  lemma UpTurn(o: Options, p: Pool, now: int)
    requires p.eps != [] && !RotationDue(o, p, now) && Candidates(o, p.eps, now) != []
    ensures var e, q := p.eps[PickIn(o, p, now)], After(o, p, UpCall(now));
            && Returns(o, p, UpCall(now), e.host, e.port)
            && q.rr == (p.rr + 1) % TWO_64 && q.lastRotate == p.lastRotate
            && SameNames(p.eps, q.eps) && Candidates(o, q.eps, now) == Candidates(o, p.eps, now)
  {
    hide Candidates;
    SameCandidates(o, After(o, p, UpCall(now)).eps, p.eps, now);
  }

  /** The pool after `n` such selections at one clock reading. */
  function Turned(o: Options, p: Pool, now: int, n: nat): Pool {
    if n == 0 then p else After(o, Turned(o, p, now, n - 1), UpCall(now))
  }

  lemma {:induction false} TurnedKeepsCandidates(o: Options, p: Pool, now: int, n: nat)
    requires p.eps != [] && p.rr < TWO_64 && !RotationDue(o, p, now) && Candidates(o, p.eps, now) != []
    ensures var q := Turned(o, p, now, n);
            && q.rr == (p.rr + n) % TWO_64 && q.lastRotate == p.lastRotate
            && SameNames(p.eps, q.eps) && Candidates(o, q.eps, now) == Candidates(o, p.eps, now)
  {
    hide After, Candidates, SameNames, PickIn;
    SameNamesChain(p.eps, p.eps, p.eps);
    if n > 0 {
      var q := Turned(o, p, now, n - 1);
      TurnedKeepsCandidates(o, p, now, n - 1);
      SameNameAt(p.eps, q.eps, 0);
      UpTurn(o, q, now);
      SameNamesChain(p.eps, q.eps, Turned(o, p, now, n).eps);
      NextCursor(p.rr, n);
    }
  }

  lemma NextCursor(rr: nat, n: nat)
    requires n > 0
    ensures ((rr + n - 1) % TWO_64 + 1) % TWO_64 == (rr + n) % TWO_64
  {
  }

  lemma ForwardTo(rr: nat, len: nat, pos: nat) returns (n: nat)
    requires pos < len
    ensures n < len && (rr + n) % len == pos
  {
    var q, r := rr / len, rr % len;
    assert rr == q * len + r;
    if pos >= r {
      n := pos - r;
      ModOfSum(q, len, pos);
    } else {
      n := len - r + pos;
      assert (q + 1) * len == q * len + len;
      ModOfSum(q + 1, len, pos);
    }
  }

  /** The cursor reaches every position of a list, also when it wraps round on the way. */
  lemma CursorReaches(rr: nat, len: nat, pos: nat) returns (n: nat)
    requires rr < TWO_64 && pos < len <= TWO_64
    ensures n < 2 * len && (rr + n) % TWO_64 % len == pos
  {
    if rr + len > TWO_64 {
      n := TWO_64 - rr + pos;
      SmallRemainder(pos, len);
    } else {
      n := ForwardTo(rr, len, pos);
    }
  }

  lemma SmallRemainder(a: nat, n: nat)
    requires a < n
    ensures a % n == a
  {
  }

  lemma CandidateAt(o: Options, eps: seq<Endpoint>, now: int, i: nat) returns (k: nat)
    requires i < |eps| && Eligible(o, eps[i], now)
    ensures k < |Candidates(o, eps, now)| <= |eps| && Candidates(o, eps, now)[k] == i
  {
    CandidatesComplete(o, eps, now, i);
    CandidateCount(o, eps, now);
    k :| k < |Candidates(o, eps, now)| && Candidates(o, eps, now)[k] == i;
  }

  lemma {:induction false} CandidateCount(o: Options, eps: seq<Endpoint>, now: int)
    ensures |Candidates(o, eps, now)| <= |eps|
  {
    if eps != [] {
      CandidateCount(o, eps[..|eps| - 1], now);
    }
  }

  lemma TurnsAreHistory(o: Options, p: Pool, now: int, n: nat) returns (pools: seq<Pool>, calls: seq<Call>)
    ensures IsHistory(o, pools, calls) && |calls| == n
    ensures forall k | 0 <= k <= n :: pools[k] == Turned(o, p, now, k)
    ensures forall k | 0 <= k < n :: calls[k] == UpCall(now)
  {
    hide After;
    pools := seq(n + 1, k requires 0 <= k => Turned(o, p, now, k));
    calls := seq(n, _ => UpCall(now));
    forall i | 0 <= i < n
      ensures Fits(pools[i], calls[i]) && pools[i + 1] == After(o, pools[i], calls[i])
    {
      assert Turned(o, p, now, i + 1) == After(o, Turned(o, p, now, i), UpCall(now));
    }
  }

  /** The turn at which the cursor stands on an eligible endpoint. */
  lemma ItsTurn(o: Options, p: Pool, now: int, i: nat) returns (n: nat)
    requires !RotationDue(o, p, now) && p.rr < TWO_64 && |p.eps| <= TWO_64
    requires i < |p.eps| && Eligible(o, p.eps[i], now)
    ensures n < 2 * |p.eps| && Returns(o, Turned(o, p, now, n), UpCall(now), p.eps[i].host, p.eps[i].port)
  {
    hide Candidates, After, Returns, Eligible, SameNames, Turned, RotationDue, PickIn, UpCall;
    var c := Candidates(o, p.eps, now);
    var pos := CandidateAt(o, p.eps, now, i);
    n := CursorReaches(p.rr, |c|, pos);
    TurnedKeepsCandidates(o, p, now, n);
    var q := Turned(o, p, now, n);
    SameNameAt(p.eps, q.eps, i);
    PickedAt(o, q, now, c, pos);
    SameRotation(o, p, q, now);
    UpTurn(o, q, now);
  }

  lemma PickedAt(o: Options, q: Pool, now: int, c: seq<nat>, pos: nat)
    requires Candidates(o, q.eps, now) == c && pos < |c| && q.rr % |c| == pos
    ensures PickIn(o, q, now) == c[pos]
  {
    hide Candidates;
  }

  lemma SameRotation(o: Options, p: Pool, q: Pool, now: int)
    requires p.lastRotate == q.lastRotate
    ensures RotationDue(o, p, now) == RotationDue(o, q, now)
  {
  }

  /**
    While nothing rotates, every endpoint that is healthy, or was last probed a cooldown ago, has its turn, all at one
    clock reading.
    */
  lemma EndpointComesRound(o: Options, p: Pool, now: int, i: nat) returns (pools: seq<Pool>, calls: seq<Call>)
    requires o.rotateInterval <= 0 || now - p.lastRotate < o.rotateInterval
    requires p.rr < TWO_64 && |p.eps| <= TWO_64
    requires i < |p.eps| && (p.eps[i].healthy || now - p.eps[i].lastProbe >= o.failureCooldown)
    ensures IsHistory(o, pools, calls) && pools[0] == p && 0 < |calls| <= 2 * |p.eps|
    ensures forall k | 0 <= k < |calls| :: calls[k] == UpCall(now) && !RotationDue(o, pools[k], now)
    ensures Returns(o, pools[|calls| - 1], calls[|calls| - 1], p.eps[i].host, p.eps[i].port)
  {
    hide After, Returns, UpCall;
    var n := ItsTurn(o, p, now, i);
    pools, calls := TurnsAreHistory(o, p, now, n + 1);
    CandidatesComplete(o, p.eps, now, i);
    hide Candidates, Eligible, SameNames, PickIn;
    forall k | 0 <= k < |calls|
      ensures !RotationDue(o, pools[k], now)
    {
      TurnedKeepsCandidates(o, p, now, k);
    }
  }

  /** A success report makes the first endpoint of the name healthy, and so selectable at once. */
  lemma SuccessComesRound(o: Options, before: Pool, host: bytes, port: nat, latency: int, now: int, k: nat)
    returns (pools: seq<Pool>, calls: seq<Call>)
    requires o.rotateInterval <= 0 || now - before.lastRotate < o.rotateInterval
    requires before.rr < TWO_64 && |before.eps| <= TWO_64
    requires k < |before.eps| && before.eps[k].host == host && before.eps[k].port == port
    requires forall i | 0 <= i < k :: !(before.eps[i].host == host && before.eps[i].port == port)
    ensures IsHistory(o, pools, calls) && pools[0] == After(o, before, ReportSuccess(host, port, latency))
    ensures pools[0].eps == before.eps[k := before.eps[k].(healthy := true, failures := 0, latency := latency)]
    ensures 0 < |calls| <= 2 * |before.eps| && forall i | 0 <= i < |calls| :: calls[i] == UpCall(now)
    ensures Returns(o, pools[|calls| - 1], calls[|calls| - 1], host, port)
  {
    assert FirstMatch(before.eps, host, port) == k;
    var p := After(o, before, ReportSuccess(host, port, latency));
    pools, calls := EndpointComesRound(o, p, now, k);
    hide IsHistory, Returns, After;
  }

  /** No rotation falls due before the cooldown of a failure at `t` is over. */
  predicate NoRotationBefore(o: Options, p: Pool, t: int) {
    o.rotateInterval <= 0 || t + o.failureCooldown - p.lastRotate <= o.rotateInterval
  }

  /** With another copy up, or not probed since, harmless selections soon return the endpoint. */
  lemma OtherCopyIsReturned(o: Options, before: Pool, host: bytes, port: nat, t: int, i: nat)
    returns (pools: seq<Pool>, calls: seq<Call>, now: int)
    requires o.failureCooldown >= 0 && NoRotationBefore(o, before, t)
    requires before.rr < TWO_64 && |before.eps| <= TWO_64
    requires FirstMatch(before.eps, host, port) < i < |before.eps| && before.eps[i].Is(host, port)
    requires before.eps[i].healthy || before.eps[i].lastProbe < t
    ensures IsHistory(o, pools, calls) && pools[0] == After(o, before, ReportFailure(host, port, t))
    ensures AllHarmless(o, pools, calls, host, port, t)
    ensures now < t + o.failureCooldown && (o.failureCooldown > 0 ==> now >= t)
    ensures 0 < |calls| <= 2 * |before.eps| && forall k | 0 <= k < |calls| :: calls[k] == UpCall(now)
    ensures Returns(o, pools[|calls| - 1], calls[|calls| - 1], host, port)
  {
    var p, e := After(o, before, ReportFailure(host, port, t)), before.eps[i];
    var cooled := e.lastProbe + o.failureCooldown;
    now := if e.healthy then t + o.failureCooldown - 1 else if o.failureCooldown > 0 && cooled < t then t else cooled;
    assert p.eps[i] == e;
    pools, calls := EndpointComesRound(o, p, now, i);
    hide IsHistory, Returns, After;
  }

  /** No harmless history from `p` returns the endpoint before the cooldown of a failure at `t` is over. */
  ghost predicate KeptAway(o: Options, p: Pool, host: bytes, port: nat, t: int) {
    forall pools: seq<Pool>, calls: seq<Call>, k: nat |
      && IsHistory(o, pools, calls) && pools[0] == p && AllHarmless(o, pools, calls, host, port, t)
      && k < |calls| && calls[k].SelectProxy? && calls[k].now < t + o.failureCooldown ::
      !Returns(o, pools[k], calls[k], host, port)
  }

  /**
    A reported failure keeps the endpoint away for its cooldown exactly when every further copy of it in the
    pool is down and was probed since; in a pool of distinct endpoints there is none.
    */
  lemma KeptAwayExactly(o: Options, before: Pool, host: bytes, port: nat, t: int)
    requires o.failureCooldown >= 0 && NoRotationBefore(o, before, t)
    requires before.rr < TWO_64 && |before.eps| <= TWO_64
    ensures KeptAway(o, After(o, before, ReportFailure(host, port, t)), host, port, t) <==>
            OtherCopiesDown(before.eps, host, port, t)
  {
    hide After, Returns, AllHarmless;
    var p := After(o, before, ReportFailure(host, port, t));
    if OtherCopiesDown(before.eps, host, port, t) {
      forall pools: seq<Pool>, calls: seq<Call>, k: nat |
        && IsHistory(o, pools, calls) && pools[0] == p && AllHarmless(o, pools, calls, host, port, t)
        && k < |calls| && calls[k].SelectProxy? && calls[k].now < t + o.failureCooldown
        ensures !Returns(o, pools[k], calls[k], host, port)
      {
        NotSelectedDuringCooldown(o, before, pools, calls, k, host, port, t);
      }
    } else {
      var i: nat :| FirstMatch(before.eps, host, port) < i < |before.eps| && before.eps[i].Is(host, port)
                    && !(!before.eps[i].healthy && before.eps[i].lastProbe >= t);
      var pools, calls, now := OtherCopyIsReturned(o, before, host, port, t, i);
      assert calls[|calls| - 1] == UpCall(now);
    }
  }

  /** A rotation lifts every quarantine at once: all endpoints are healthy again, and one is returned. */
  lemma RotationLiftsQuarantine(o: Options, p: Pool, now: int, onion: bool, wall: int, up: bool, circuit: bytes)
    requires p.eps != [] && RotationDue(o, p, now)
    ensures var s := Select(o, p, now, onion, wall, up, circuit);
            s.result.Some? && forall i | 0 <= i < |s.pool.eps| :: s.pool.eps[i].healthy
  {
    var q := Prepared(o, p, now, onion);
    CandidatesComplete(o, q.eps, now, 0);
    hide Candidates;
  }

  /** When a rotation is due, the cursor moves on by one before the endpoint at it is returned. */
  lemma RotationMovesOn(o: Options, p: Pool, now: int, onion: bool, wall: int, up: bool, circuit: bytes)
    requires p.eps != [] && o.rotateInterval > 0 && now - p.lastRotate >= o.rotateInterval
    ensures var s := Select(o, p, now, onion, wall, up, circuit);
            var cursor := (p.rr + 1) % 0x1_0000_0000_0000_0000 % |p.eps|;
            && s.pool.lastRotate == now && s.pool.rr == (cursor + 1) % 0x1_0000_0000_0000_0000
            && s.result.Some? && s.result.value.Is(p.eps[cursor].host, p.eps[cursor].port)
  {
    var q := Prepared(o, p, now, onion);
    AllAreCandidates(o, q.eps, now);
    SmallRemainder(q.rr, |p.eps|);
    hide Candidates;
  }

  /** How many endpoints are healthy or were last probed a cooldown ago. */
  function Available(o: Options, eps: seq<Endpoint>, now: int): nat {
    if eps == [] then 0
    else
      var e := eps[|eps| - 1];
      Available(o, eps[..|eps| - 1], now) + if e.healthy || now - e.lastProbe >= o.failureCooldown then 1 else 0
  }

  /** A candidate has as many candidates before it as its place in the list says. */
  lemma {:induction false} CandidatePlace(o: Options, eps: seq<Endpoint>, now: int, k: nat)
    ensures |Candidates(o, eps, now)| == Available(o, eps, now)
    ensures k < |Candidates(o, eps, now)| ==> Available(o, eps[..Candidates(o, eps, now)[k]], now) == k
  {
    if eps != [] {
      var n := |eps| - 1;
      CandidatePlace(o, eps[..n], now, k);
      var c := Candidates(o, eps[..n], now);
      if k < |c| {
        assert eps[..n][..c[k]] == eps[..c[k]];
      }
    }
  }

  /**
    A selection without a rotation picks, of the available endpoints, the one at the cursor, which moves on. It
    changes no other endpoint, and of that one only health and clocks; it returns nothing when there is none
    available, or when the one it picks has to be probed and is down.
    */
  lemma SelectExactly(o: Options, p: Pool, now: int, onion: bool, wall: int, up: bool, circuit: bytes)
    returns (i: nat)
    requires p.eps != [] && (o.rotateInterval <= 0 || now - p.lastRotate < o.rotateInterval)
    ensures var s := Select(o, p, now, onion, wall, up, circuit);
            && s.pool.lastRotate == p.lastRotate && |s.pool.eps| == |p.eps|
            && (forall j | 0 <= j < |p.eps| && j != i :: s.pool.eps[j] == p.eps[j])
            && s.pool.onionRequests ==
                 (if onion then (p.onionRequests + 1) % 0x1_0000_0000_0000_0000 else p.onionRequests)
            && (Available(o, p.eps, now) == 0 ==> i == |p.eps| && s.result == None && s.pool.rr == p.rr)
            && (Available(o, p.eps, now) > 0 ==>
                  && i < |p.eps| && s.pool.rr == (p.rr + 1) % 0x1_0000_0000_0000_0000
                  && (p.eps[i].healthy || now - p.eps[i].lastProbe >= o.failureCooldown)
                  && Available(o, p.eps[..i], now) == p.rr % Available(o, p.eps, now)
                  && (s.result.Some? <==> p.eps[i].healthy || up)
                  && s.pool.eps[i] ==
                       if p.eps[i].healthy then p.eps[i].(lastUsed := wall)
                       else if up then p.eps[i].(healthy := true, lastProbe := now, lastUsed := wall)
                       else p.eps[i].(lastProbe := now))
  {
    hide Candidates, Available;
    i := |p.eps|;
    CandidatePlace(o, p.eps, now, 0);
    var c := Candidates(o, p.eps, now);
    if c != [] {
      CandidatePlace(o, p.eps, now, p.rr % |c|);
      i := PickIn(o, Prepared(o, p, now, onion), now);
      assert i == c[p.rr % |c|];
    }
  }

  // ----- Load balancing -----

  ghost predicate Healthy(eps: seq<Endpoint>) {
    forall i | 0 <= i < |eps| :: eps[i].healthy
  }

  lemma {:induction false} AllAreCandidates(o: Options, eps: seq<Endpoint>, now: int)
    requires Healthy(eps)
    ensures Candidates(o, eps, now) == seq(|eps|, i requires 0 <= i < |eps| => i)
  {
    if eps != [] {
      AllAreCandidates(o, eps[..|eps| - 1], now);
    }
  }

  /** One selection from healthy endpoints: the one at the cursor, which moves on. */
  lemma HealthyTurn(o: Options, p: Pool, c: Call)
    requires o.rotateInterval <= 0 && c.SelectProxy? && p.eps != [] && Healthy(p.eps)
    ensures var s := Select(o, p, c.now, c.onion, c.wall, c.up, c.circuit);
            && Healthy(s.pool.eps) && SameNames(p.eps, s.pool.eps) && s.pool.rr == (p.rr + 1) % TWO_64
            && var e := p.eps[p.rr % |p.eps|];
            s.result.Some? && s.result.value.Is(e.host, e.port)
  {
    hide Candidates;
    AllAreCandidates(o, p.eps, c.now);
  }

  lemma SameNamesChain(a: seq<Endpoint>, b: seq<Endpoint>, c: seq<Endpoint>)
    ensures SameNames(a, a)
    ensures SameNames(a, b) && SameNames(b, c) ==> SameNames(a, c)
  {
  }

  lemma SameNameAt(a: seq<Endpoint>, b: seq<Endpoint>, i: nat)
    requires SameNames(a, b) && i < |a|
    ensures |a| == |b| && a[i].host == b[i].host && a[i].port == b[i].port
  {
  }

  lemma {:induction false} CursorMovesOn(o: Options, pools: seq<Pool>, calls: seq<Call>, k: nat)
    requires IsHistory(o, pools, calls) && o.rotateInterval <= 0
    requires forall i | 0 <= i < |calls| :: calls[i].SelectProxy?
    requires pools[0].eps != [] && Healthy(pools[0].eps) && pools[0].rr + |calls| < TWO_64
    requires k <= |calls|
    ensures Healthy(pools[k].eps) && SameNames(pools[0].eps, pools[k].eps) && pools[k].rr == pools[0].rr + k
  {
    hide Select, Healthy, SameNames;
    SameNamesChain(pools[0].eps, pools[0].eps, pools[0].eps);
    if k > 0 {
      CursorMovesOn(o, pools, calls, k - 1);
      assert pools[k] == After(o, pools[k - 1], calls[k - 1]);
      SameNameAt(pools[0].eps, pools[k - 1].eps, 0);
      HealthyTurn(o, pools[k - 1], calls[k - 1]);
      SameNamesChain(pools[0].eps, pools[k - 1].eps, pools[k].eps);
    }
  }

  /** While all endpoints are healthy and nothing rotates, the selections walk round the pool. */
  lemma WalksRound(o: Options, pools: seq<Pool>, calls: seq<Call>, k: nat)
    requires IsHistory(o, pools, calls) && o.rotateInterval <= 0
    requires forall i | 0 <= i < |calls| :: calls[i].SelectProxy?
    requires pools[0].eps != [] && Healthy(pools[0].eps) && pools[0].rr + |calls| < TWO_64
    requires k < |calls|
    ensures var c := calls[k];
            var s := Select(o, pools[k], c.now, c.onion, c.wall, c.up, c.circuit);
            var e := pools[0].eps[(pools[0].rr + k) % |pools[0].eps|];
            s.result.Some? && s.result.value.Is(e.host, e.port)
  {
    hide Select, Healthy, SameNames;
    CursorMovesOn(o, pools, calls, k);
    SameNameAt(pools[0].eps, pools[k].eps, (pools[0].rr + k) % |pools[0].eps|);
    HealthyTurn(o, pools[k], calls[k]);
  }

  /** So any two of `n` consecutive selections from `n` distinct healthy endpoints differ. */
  lemma LoadIsBalanced(o: Options, pools: seq<Pool>, calls: seq<Call>, i: nat, j: nat)
    requires IsHistory(o, pools, calls) && o.rotateInterval <= 0
    requires forall k | 0 <= k < |calls| :: calls[k].SelectProxy?
    requires pools[0].eps != [] && Distinct(pools[0].eps) && Healthy(pools[0].eps)
    requires pools[0].rr + |calls| < TWO_64
    requires i < j < |calls| && j - i < |pools[0].eps|
    ensures var c, d := calls[i], calls[j];
            var s := Select(o, pools[i], c.now, c.onion, c.wall, c.up, c.circuit);
            var t := Select(o, pools[j], d.now, d.onion, d.wall, d.up, d.circuit);
            s.result.Some? && t.result.Some? && !s.result.value.Is(t.result.value.host, t.result.value.port)
  {
    hide Select;
    WalksRound(o, pools, calls, i);
    WalksRound(o, pools, calls, j);
    var eps, rr := pools[0].eps, pools[0].rr;
    ModDiffers(|eps|, rr + i, rr + j);
    var a, b := (rr + i) % |eps|, (rr + j) % |eps|;
    assert a != b;
    assert !eps[if a < b then a else b].Is(eps[if a < b then b else a].host, eps[if a < b then b else a].port);
  }
}
