/** The class `RobotsTxt` of src/robots_txt.cpp: policies cached per origin, and the verdict on an address. */
module RobotsTxt {
  import opened Bytes
  import opened RobotsRules

  const ROBOTS_TXT: bytes := [0x72, 0x6F, 0x62, 0x6F, 0x74, 0x73, 0x2E, 0x74, 0x78, 0x74]

  /** `lowerAscii` */
  method LowerAscii(s: bytes) returns (out: bytes)
    ensures out == Lower(s)
  {
    out := s;
    for i := 0 to |s|
      invariant |out| == |s|
      invariant forall j | 0 <= j < |s| :: out[j] == if j < i then LowerByte(s[j]) else s[j]
    {
      if 0x41 <= out[i] <= 0x5A {
        out := out[i := out[i] + 0x20];
      }
    }
  }

  lemma TrimStep(s: bytes, b: nat, e: nat)
    requires b < e <= |s|
    ensures TrimLeft(s[b..e]) == if IsSpace(s[b]) then TrimLeft(s[b + 1..e]) else s[b..e]
    ensures TrimRight(s[b..e]) == if IsSpace(s[e - 1]) then TrimRight(s[b..e - 1]) else s[b..e]
  {
    hide IsSpace;
    assert s[b..e][1..] == s[b + 1..e] && s[b..e][..e - b - 1] == s[b..e - 1];
  }

  lemma TrimNothing()
    ensures TrimLeft([]) == [] && TrimRight([]) == []
  {
  }

  /** `trimWs` */
  method TrimWs(s: bytes) returns (out: bytes)
    ensures out == Trim(s)
  {
    hide TrimLeft, TrimRight, IsSpace;
    var b, e := 0, |s|;
    assert s[b..e] == s;
    TrimNothing();
    while b < e && IsSpace(s[b])
      invariant b <= e == |s|
      invariant TrimLeft(s[b..e]) == TrimLeft(s)
    {
      TrimStep(s, b, e);
      b := b + 1;
    }
    if b < e {
      TrimStep(s, b, e);
    }
    while e > b && IsSpace(s[e - 1])
      invariant b <= e <= |s|
      invariant TrimRight(s[b..e]) == Trim(s)
    {
      TrimStep(s, b, e);
      e := e - 1;
    }
    if b < e {
      TrimStep(s, b, e);
    }
    out := s[b..e];
  }

  lemma {:induction false} FirstOfSlice(s: bytes, stops: set<byte>, from: nat, k: nat)
    requires from + k <= |s|
    ensures FirstOf(s, stops, from + k) == from + FirstOf(s[from..], stops, k)
    decreases |s| - k
  {
  }

  lemma LinesStep(body: bytes, pos: nat, end: nat)
    requires pos < |body| && end == FirstOf(body, {NEWLINE}, pos)
    ensures end < |body| ==> Lines(body[pos..]) == [body[pos..end]] + Lines(body[end + 1..])
    ensures end == |body| ==> Lines(body[pos..]) == [body[pos..end]]
  {
    hide FirstOf, Lines;
    var rest := body[pos..];
    FirstOfSlice(body, {NEWLINE}, pos, 0);
    FirstLine(rest, end - pos);
    assert rest[..end - pos] == body[pos..end];
    if end < |body| {
      assert rest[end - pos + 1..] == body[end + 1..];
    }
  }

  lemma CollectStep(us: bytes, line: bytes, rest: seq<bytes>, ours: bool)
    ensures Collect(us, [line] + rest, ours) ==
            match Read(line)
            case Agent(name) => Collect(us, rest, MeansUs(us, name))
            case Entry(rule) => (if ours then [rule] else []) + Collect(us, rest, ours)
            case Nothing => Collect(us, rest, ours)
  {
  }

  lemma CollectNothing(us: bytes, ours: bool)
    ensures Collect(us, [], ours) == []
  {
  }

  /** A line with nothing but a comment says nothing. */
  lemma EmptyLine(raw: bytes)
    requires Trim(StripComment(raw)) == []
    ensures Read(raw) == Nothing
  {
  }

  lemma ReadParts(raw: bytes, line: bytes, lower: bytes, colon: nat)
    requires line == Trim(StripComment(raw)) && lower == Lower(line) && colon == FirstOf(lower, {COLON}, 0)
    ensures Read(raw) ==
            Statement(Trim(lower[..colon]), Trim(if colon < |line| then line[colon + 1..] else line))
  {
  }

  /** The two sides of the first colon. */
  method KeyAndValue(ghost raw: bytes, line: bytes) returns (key: bytes, value: bytes)
    requires line == Trim(StripComment(raw))
    ensures Read(raw) == Statement(key, value)
  {
    hide Lower, Trim, StripComment, Read, Statement, FirstOf;
    var lower := LowerAscii(line);
    var colon := FirstOf(lower, {COLON}, 0);
    key := TrimWs(lower[..colon]);
    value := TrimWs(if colon < |line| then line[colon + 1..] else line);
    ReadParts(raw, line, lower, colon);
  }

  /** `parseBody`: the rules of a group are held back until the group ends. */
  method ParseBody(name: bytes, body: bytes) returns (rules: seq<Rule>)
    ensures rules == RulesFor(name, body)
  {
    hide Lines, Collect, Trim, StripComment, Contains, KeyOf, ValueOf, Lower, Read;
    var us := LowerAscii(name);
    var inMatchingGroup := false;
    var group: seq<Rule> := [];
    rules := [];
    var pos := 0;
    assert body[0..] == body;
    while pos < |body|
      invariant pos <= |body|
      invariant !inMatchingGroup ==> group == []
      invariant RulesFor(name, body) == rules + group + Collect(us, Lines(body[pos..]), inMatchingGroup)
      decreases |body| - pos
    {
      var end := FirstOf(body, {NEWLINE}, pos);
      var raw := body[pos..end];
      LinesStep(body, pos, end);
      NoLines(body[|body|..]);
      ghost var next := if end < |body| then end + 1 else end;
      assert Lines(body[pos..]) == [raw] + Lines(body[next..]);
      pos := if end < |body| then end + 1 else end;
      CollectStep(us, raw, Lines(body[pos..]), inMatchingGroup);
      var line := TrimWs(StripComment(raw));
      if line == [] {
        EmptyLine(raw);
        continue;
      }
      var key, value := KeyAndValue(raw, line);
      if key == USER_AGENT {
        if inMatchingGroup {
          rules := rules + group;
          group := [];
        }
        var agent := LowerAscii(value);
        inMatchingGroup := agent == STAR || Contains(us, agent) || Contains(agent, us);
      } else if key == ALLOW {
        if inMatchingGroup && value != [] {
          group := group + [Rule(true, value)];
        }
      } else if key == DISALLOW {
        if inMatchingGroup && value != [] {
          group := group + [Rule(false, value)];
        }
      }
    }
    NoLines(body[pos..]);
    CollectNothing(us, inMatchingGroup);
    if inMatchingGroup {
      rules := rules + group;
    }
  }

  /** The decision of `allowed` over one list of rules. */
  method Decide(rules: seq<Rule>, path: bytes) returns (r: bool)
    requires NoEmptyPath(rules)
    ensures r <==> Permitted(rules, path)
  {
    hide BestSoFar, Permitted;
    if rules == [] {
      NoRules(path);
      return true;
    }
    var bestLen: nat, bestAllow, matched := 0, true, false;
    NothingSeen(path);
    for i := 0 to |rules|
      invariant BestSoFar(rules[..i], path, matched, bestLen, bestAllow)
    {
      var rule := rules[i];
      BestStep(rules[..i], rule, path, matched, bestLen, bestAllow);
      assert rules[..i + 1] == rules[..i] + [rule];
      if |rule.path| >= bestLen && rule.path <= path {
        if |rule.path| > bestLen {
          bestLen := |rule.path|;
          bestAllow := rule.allow;
          matched := true;
        } else {
          if rule.allow {
            bestAllow := true;
          }
          matched := true;
        }
      }
    }
    assert rules[..|rules|] == rules;
    BestDecides(rules, path, matched, bestLen, bestAllow);
    r := !matched || bestAllow;
  }

  lemma NothingSeen(path: bytes)
    ensures BestSoFar([], path, false, 0, true)
  {
  }

  lemma NoRules(path: bytes)
    ensures Permitted([], path)
  {
  }

  // ----- The cache -----

  datatype DomainRules = DomainRules(origin: bytes, loaded: bool, rules: seq<Rule>)

  datatype FetchResult = Fetched(body: bytes) | Failed

  /** The policy a fetch establishes; a failed one permits everything. */
  function PolicyFrom(name: bytes, fetched: FetchResult): (rules: seq<Rule>)
    ensures NoEmptyPath(rules)
  {
    match fetched
    case Fetched(body) => CollectedPaths(Lower(name), Lines(body), false); RulesFor(name, body)
    case Failed => []
  }

  predicate Known(domains: seq<DomainRules>, origin: bytes) {
    exists i | 0 <= i < |domains| :: domains[i].origin == origin
  }

  /** The rules of an origin; none for an origin that was never loaded. */
  function PolicyOf(domains: seq<DomainRules>, origin: bytes): seq<Rule> {
    if domains == [] then []
    else if domains[0].origin == origin then domains[0].rules
    else PolicyOf(domains[1..], origin)
  }

  lemma {:induction false} PolicyAt(domains: seq<DomainRules>, origin: bytes, i: nat)
    requires i <= |domains|
    requires forall j | 0 <= j < i :: domains[j].origin != origin
    ensures i < |domains| && domains[i].origin == origin ==> PolicyOf(domains, origin) == domains[i].rules
    ensures i == |domains| ==> PolicyOf(domains, origin) == []
    decreases |domains|
  {
    if i > 0 {
      PolicyAt(domains[1..], origin, i - 1);
    }
  }

  /** Entries other than `i` decide what is known of every other origin. */
  lemma {:induction false} PolicyElsewhere(a: seq<DomainRules>, b: seq<DomainRules>, origin: bytes)
    requires |a| <= |b|
    requires forall i | 0 <= i < |a| :: a[i] == b[i] || (a[i].origin != origin && b[i].origin != origin)
    requires forall i | |a| <= i < |b| :: b[i].origin != origin
    ensures PolicyOf(b, origin) == PolicyOf(a, origin)
    ensures Known(b, origin) <==> Known(a, origin)
    decreases |b|
  {
    if a != [] {
      PolicyElsewhere(a[1..], b[1..], origin);
    } else {
      PolicyAt(b, origin, |b|);
    }
    KnownElsewhere(a, b, origin);
  }

  lemma KnownElsewhere(a: seq<DomainRules>, b: seq<DomainRules>, origin: bytes)
    requires |a| <= |b|
    requires forall i | 0 <= i < |a| :: a[i] == b[i] || (a[i].origin != origin && b[i].origin != origin)
    requires forall i | |a| <= i < |b| :: b[i].origin != origin
    ensures Known(b, origin) <==> Known(a, origin)
  {
  }

  /** One policy is stored; those of all other origins stay. */
  ghost predicate Published(before: seq<DomainRules>, after: seq<DomainRules>, origin: bytes, rules: seq<Rule>) {
    && Known(after, origin) && PolicyOf(after, origin) == rules
    && forall o | o != origin :: (Known(after, o) <==> Known(before, o)) && PolicyOf(after, o) == PolicyOf(before, o)
  }

  // ----- Loading by several threads -----

  /** A thread that found an origin unknown and fetched its rules stores them. */
  datatype Load = Load(origin: bytes, fetched: FetchResult)

  /** The stores of all threads, in the order in which they got the lock, starting from an empty cache. */
  ghost predicate IsLoading(name: bytes, caches: seq<seq<DomainRules>>, loads: seq<Load>) {
    && |caches| == |loads| + 1 && caches[0] == []
    && forall i | 0 <= i < |loads| ::
         Published(caches[i], caches[i + 1], loads[i].origin, PolicyFrom(name, loads[i].fetched))
  }

  /** The rules last fetched for an origin; none before the first time. */
  function LastFetched(name: bytes, loads: seq<Load>, origin: bytes): seq<Rule> {
    if loads == [] then []
    else
      var last := loads[|loads| - 1];
      if last.origin == origin then PolicyFrom(name, last.fetched)
      else LastFetched(name, loads[..|loads| - 1], origin)
  }

  /**
    However the threads interleave, the policy of an origin is always one read from its own robots.txt, that of
    the thread that stored last; and an origin is known once any thread has stored it.
    */
  lemma {:induction false} LastFetchWins(
    name: bytes, caches: seq<seq<DomainRules>>, loads: seq<Load>, n: nat, origin: bytes)
    requires IsLoading(name, caches, loads) && n <= |loads|
    ensures PolicyOf(caches[n], origin) == LastFetched(name, loads[..n], origin)
    ensures Known(caches[n], origin) <==> exists i :: 0 <= i < n && loads[i].origin == origin
  {
    hide PolicyOf, Known, PolicyFrom;
    if n == 0 {
      NothingKnown(origin);
    } else {
      LastFetchWins(name, caches, loads, n - 1, origin);
      assert loads[..n][..n - 1] == loads[..n - 1];
    }
  }

  lemma NothingKnown(origin: bytes)
    ensures PolicyOf([], origin) == [] && !Known([], origin)
  {
  }

  /** An origin that has rules is known. */
  lemma Unpublished(domains: seq<DomainRules>, origin: bytes)
    ensures !Known(domains, origin) ==> PolicyOf(domains, origin) == []
  {
  }

  class RobotsTxt {
    const name: bytes
    var domains: seq<DomainRules>

    ghost predicate Valid()
      reads this
    {
      && (forall d | d in domains :: d.origin != [] && d.loaded && NoEmptyPath(d.rules))
      && (forall i, j | 0 <= i < j < |domains| :: domains[i].origin != domains[j].origin)
    }

    constructor (name: bytes)
      ensures Valid() && domains == [] && this.name == name
    {
      this.name := name;
      domains := [];
    }

    /** The place of an origin in the list; the end when it is not there. */
    method Find(origin: bytes) returns (i: nat)
      ensures i <= |domains|
      ensures i < |domains| <==> Known(domains, origin)
      ensures i < |domains| ==> domains[i].origin == origin
      ensures PolicyOf(domains, origin) == if i < |domains| then domains[i].rules else []
    {
      i := 0;
      while i < |domains| && domains[i].origin != origin
        invariant i <= |domains|
        invariant forall j | 0 <= j < i :: domains[j].origin != origin
      {
        i := i + 1;
      }
      PolicyAt(domains, origin, i);
    }

    /** The second locked section of `loadDomain`; another thread may have stored the origin meanwhile. */
    method Store(origin: bytes, rules: seq<Rule>)
      requires Valid() && origin != [] && NoEmptyPath(rules)
      modifies this
      ensures Valid()
      ensures Published(old(domains), domains, origin, rules)
    {
      var i := Find(origin);
      var entry := DomainRules(origin, true, rules);
      ghost var was := domains;
      if i < |domains| {
        domains := domains[i := entry];
      } else {
        domains := domains + [entry];
      }
      assert domains[i].origin == origin;
      assert forall j | 0 <= j < |domains| && j != i :: domains[j] == was[j] && was[j].origin != origin;
      PolicyAt(domains, origin, i);
      forall o | o != origin
        ensures (Known(domains, o) <==> Known(was, o)) && PolicyOf(domains, o) == PolicyOf(was, o)
      {
        PolicyElsewhere(was, domains, o);
      }
    }

    /** `loadDomain`: a policy is fetched once for each origin, and every other origin keeps its own. */
    method LoadDomain(url: bytes, fetched: FetchResult)
      requires Valid()
      modifies this
      ensures Valid()
      ensures OriginOf(url) == [] || Known(old(domains), OriginOf(url)) ==> domains == old(domains)
      ensures OriginOf(url) != [] && !Known(old(domains), OriginOf(url)) ==>
                && Known(domains, OriginOf(url))
                && PolicyOf(domains, OriginOf(url)) == PolicyFrom(name, fetched)
      ensures forall o | o != OriginOf(url) ::
                (Known(domains, o) <==> Known(old(domains), o)) && PolicyOf(domains, o) == PolicyOf(old(domains), o)
    {
      hide OriginOf, PolicyOf, Known;
      var origin := OriginOf(url);
      if origin == [] {
        return;
      }
      var i := Find(origin);
      assert i < |domains| ==> domains[i] in domains;
      if i < |domains| && domains[i].loaded {
        return;
      }
      var rules: seq<Rule> := [];
      if fetched.Fetched? {
        rules := ParseBody(name, fetched.body);
      }
      assert rules == PolicyFrom(name, fetched);
      Store(origin, rules);
    }

    /** `hasRules` */
    method HasRules(url: bytes) returns (r: bool)
      requires Valid()
      ensures r <==> PolicyOf(domains, OriginOf(url)) != []
    {
      var i := Find(OriginOf(url));
      assert i < |domains| ==> domains[i] in domains;
      r := i < |domains| && domains[i].loaded && domains[i].rules != [];
    }

    /** `allowed` */
    method Allowed(url: bytes) returns (r: bool)
      requires Valid()
      ensures r <==> Permitted(PolicyOf(domains, OriginOf(url)), PathOf(url))
    {
      var i := Find(OriginOf(url));
      var rules: seq<Rule> := [];
      if i < |domains| {
        assert domains[i] in domains;
        rules := domains[i].rules;
      }
      r := Decide(rules, PathOf(url));
    }

    /**
      The check the crawler makes before it fetches a page: an address is refused exactly when the rules that
      its origin published when it was first asked for, as read for our name, forbid the path.
      */
    method MayFetch(url: bytes, fetched: FetchResult) returns (r: bool)
      requires Valid()
      modifies this
      ensures Valid()
      ensures r <==>
              || Contains(url, ROBOTS_TXT)
              || OriginOf(url) == []
              || Permitted(if Known(old(domains), OriginOf(url)) then PolicyOf(old(domains), OriginOf(url))
                           else PolicyFrom(name, fetched), PathOf(url))
    {
      hide OriginOf, PathOf, PolicyOf, Known, Permitted, Contains;
      if Contains(url, ROBOTS_TXT) {
        return true;
      }
      var has := HasRules(url);
      ghost var origin := OriginOf(url);
      ghost var was := domains;
      if !has {
        LoadDomain(url, fetched);
      }
      r := Allowed(url);
      Unpublished(was, origin);
      if origin == [] {
        NoOrigin();
        NoRules(PathOf(url));
      }
    }

    lemma NoOrigin()
      requires Valid()
      ensures PolicyOf(domains, []) == []
    {
      assert forall i | 0 <= i < |domains| :: domains[i] in domains;
      PolicyAt(domains, [], |domains|);
    }
  }
}
