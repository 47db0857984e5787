/**
  What robots.txt texts mean for addresses, stated on the texts themselves (src/robots_txt.cpp; RFC 9309,
  section 2.2, without wildcards).
  */
module RobotsText {
  import opened Bytes
  import opened RobotsRules
  import opened RobotsTxt
  import opened TokenText

  const USER_AGENT_LINE: bytes := [0x75, 0x73, 0x65, 0x72, 0x2D, 0x61, 0x67, 0x65, 0x6E, 0x74, 0x3A, 0x20]
  const ALLOW_LINE: bytes := [0x61, 0x6C, 0x6C, 0x6F, 0x77, 0x3A, 0x20]
  const DISALLOW_LINE: bytes := [0x64, 0x69, 0x73, 0x61, 0x6C, 0x6C, 0x6F, 0x77, 0x3A, 0x20]
  const EVERYONE: bytes := [0x2A]
  const END: bytes := [0x0A]

  // ----- Lines -----

  predicate IsWhite(c: byte) {
    c == 0x20 || c == 0x09 || c == 0x0A || c == 0x0B || c == 0x0C || c == 0x0D
  }

  predicate IsPad(s: bytes) {
    forall i | 0 <= i < |s| :: IsWhite(s[i])
  }

  /** What can stand behind the colon: no line end, no `#`, and no white space at either end. */
  predicate IsValue(v: bytes) {
    && 0x0A !in v && 0x23 !in v && (v == [] || (!IsWhite(v[0]) && !IsWhite(v[|v| - 1])))
  }

  /** A keyword in any case: letters and hyphens. */
  predicate IsKeyword(k: bytes) {
    k != [] && forall i | 0 <= i < |k| :: k[i] == 0x2D || 0x41 <= k[i] <= 0x5A || 0x61 <= k[i] <= 0x7A
  }

  predicate IsComment(c: bytes) {
    c == [] || c[0] == 0x23
  }

  lemma FirstOfIs(s: bytes, stops: set<byte>, k: nat)
    requires k <= |s| && (forall i | 0 <= i < k :: s[i] !in stops) && (k == |s| || s[k] in stops)
    ensures FirstOf(s, stops, 0) == k
  {
    hide FirstOf;
  }

  lemma CommentIsStripped(x: bytes, comment: bytes)
    requires 0x23 !in x && IsComment(comment)
    ensures StripComment(x + comment) == x
  {
    FirstOfIs(x + comment, {HASH}, |x|);
  }

  lemma {:induction false} TrimLeftPad(pad: bytes, s: bytes)
    requires IsPad(pad)
    ensures TrimLeft(pad + s) == TrimLeft(s)
    decreases |pad|
  {
    if pad == [] {
      assert pad + s == s;
    } else {
      assert (pad + s)[1..] == pad[1..] + s;
      TrimLeftPad(pad[1..], s);
    }
  }

  lemma {:induction false} TrimRightPad(s: bytes, pad: bytes)
    requires IsPad(pad)
    ensures TrimRight(s + pad) == TrimRight(s)
    decreases |pad|
  {
    if pad == [] {
      assert s + pad == s;
    } else {
      assert (s + pad)[..|s + pad| - 1] == s + pad[..|pad| - 1];
      TrimRightPad(s, pad[..|pad| - 1]);
    }
  }

  lemma TrimIs(before: bytes, core: bytes, after: bytes)
    requires IsPad(before) && IsPad(after)
    requires core == [] || (!IsWhite(core[0]) && !IsWhite(core[|core| - 1]))
    ensures Trim(before + core + after) == core
  {
    assert before + core + after == before + (core + after);
    TrimLeftPad(before, core + after);
    if core == [] {
      assert core + after == after && after + [] == after;
      TrimLeftPad(after, []);
    } else {
      TrimRightPad(core, after);
    }
  }

  lemma LowerKeeps(s: bytes, t: bytes)
    ensures Lower(s + t) == Lower(s) + Lower(t)
    ensures IsPad(s) ==> Lower(s) == s
  {
  }

  lemma ColonIs(k: bytes, rest: bytes)
    requires 0x3A !in k
    ensures ColonOf(k + [0x3A] + rest) == |k|
  {
    var line := k + [0x3A] + rest;
    assert forall i | 0 <= i < |k| :: line[i] == k[i] && Lower(line)[i] != 0x3A;
    FirstOfIs(Lower(line), {COLON}, |k|);
  }

  /** A line as it may be written: white space around every part, the keyword in any case, a comment at the end. */
  function Written(
    before: bytes, key: bytes, middle: bytes, after: bytes, value: bytes, end: bytes, comment: bytes): bytes
  {
    before + key + middle + [0x3A] + after + value + end + comment
  }

  lemma CoreReads(key: bytes, middle: bytes, after: bytes, value: bytes)
    requires IsKeyword(key) && IsPad(middle) && IsPad(after) && IsValue(value)
    ensures var line := key + middle + [0x3A] + after + value;
            KeyOf(line) == Lower(key) && ValueOf(line) == value
  {
    hide Trim, ColonOf, Lower;
    var k, rest := key + middle, after + value;
    assert key + middle + [0x3A] + after + value == k + [0x3A] + rest;
    ColonIs(k, rest);
    KeyPart(key, middle, [0x3A] + rest);
    assert k + ([0x3A] + rest) == k + [0x3A] + rest;
    assert (k + [0x3A] + rest)[|k| + 1..] == rest;
    assert rest + [] == rest;
    TrimIs(after, value, []);
  }

  lemma KeyPart(key: bytes, middle: bytes, rest: bytes)
    requires IsKeyword(key) && IsPad(middle)
    ensures Trim(Lower(key + middle + rest)[..|key + middle|]) == Lower(key)
  {
    hide Trim;
    LowerKeeps(key + middle, rest);
    LowerKeeps(key, middle);
    LowerKeeps(middle, []);
    var k := Lower(key);
    assert Lower(key + middle + rest)[..|key + middle|] == [] + k + middle;
    KeywordStaysOne(key);
    TrimIs([], k, middle);
  }

  lemma KeywordStaysOne(key: bytes)
    requires IsKeyword(key)
    ensures Lower(key) != [] && !IsWhite(Lower(key)[0]) && !IsWhite(Lower(key)[|key| - 1])
  {
  }

  /** However a line is written, it says what its keyword and its value say. */
  lemma LineReads(before: bytes, key: bytes, middle: bytes, after: bytes, value: bytes, end: bytes, comment: bytes)
    requires IsPad(before) && IsKeyword(key) && IsPad(middle) && IsPad(after) && IsValue(value) && IsPad(end)
    requires IsComment(comment)
    ensures Read(Written(before, key, middle, after, value, end, comment)) == Statement(Lower(key), value)
  {
    hide KeyOf, ValueOf, Statement, Trim, StripComment;
    var x := before + key + middle + [0x3A] + after + value + end;
    assert Written(before, key, middle, after, value, end, comment) == x + comment;
    CommentIsStripped(x, comment);
    if value == [] {
      var core := key + middle + [0x3A];
      assert x == before + core + (after + end);
      TrimIs(before, core, after + end);
      assert core + [] + [] == core;
      CoreReads(key, middle, [], []);
    } else {
      var core := key + middle + [0x3A] + after + value;
      assert x == before + core + end;
      TrimIs(before, core, end);
      CoreReads(key, middle, after, value);
    }
  }

  /** A line of nothing but a comment says nothing. */
  lemma CommentSaysNothing(before: bytes, comment: bytes)
    requires IsPad(before) && IsComment(comment)
    ensures Read(before + comment) == Nothing
  {
    CommentIsStripped(before, comment);
    assert before + [] + [] == before;
    TrimIs(before, [], []);
    EmptyLine(before + comment);
  }

  // ----- Bodies line by line -----

  /** Nothing, or whole lines. */
  predicate WholeLines(a: bytes) {
    a == [] || a[|a| - 1] == 0x0A
  }

  lemma LinesOfOne(raw: bytes)
    requires 0x0A !in raw
    ensures Lines(raw + END) == [raw]
  {
    hide FirstOf;
    var s := raw + END;
    FirstOfIs(s, {NEWLINE}, |raw|);
    assert s[..|raw|] == raw && s[|raw| + 1..] == [];
  }

  lemma LinesOfTwo(a: bytes, b: bytes)
    requires WholeLines(a)
    ensures Lines(a + b) == Lines(a) + Lines(b)
  {
    if a == [] {
      assert a + b == b;
    } else {
      LinesAppend(a, b);
    }
  }

  ghost predicate Ours(name: bytes, a: bytes) {
    OursAfter(Lower(name), Lines(a), false)
  }

  lemma RulesOfTwo(name: bytes, a: bytes, b: bytes)
    requires WholeLines(a)
    ensures RulesFor(name, a + b) == RulesFor(name, a) + Collect(Lower(name), Lines(b), Ours(name, a))
    ensures Ours(name, a + b) == OursAfter(Lower(name), Lines(b), Ours(name, a))
  {
    hide Collect, OursAfter, Lines;
    LinesOfTwo(a, b);
    CollectAppend(Lower(name), Lines(a), Lines(b), false);
  }

  /** One more line. */
  lemma NextLine(name: bytes, a: bytes, raw: bytes)
    requires WholeLines(a) && 0x0A !in raw
    ensures WholeLines(a + (raw + END))
    ensures RulesFor(name, a + (raw + END)) ==
            RulesFor(name, a) + if Ours(name, a) && Read(raw).Entry? then [Read(raw).rule] else []
    ensures Ours(name, a + (raw + END)) ==
            if Read(raw).Agent? then MeansUs(Lower(name), Read(raw).name) else Ours(name, a)
  {
    hide Collect, OursAfter, Lines, Read, MeansUs, Ours, RulesFor;
    RulesOfTwo(name, a, raw + END);
    LinesOfOne(raw);
    CollectOne(Lower(name), raw, Ours(name, a));
  }

  lemma Start(name: bytes)
    ensures RulesFor(name, []) == [] && !Ours(name, [])
  {
  }

  /** A line that is not about agents, put anywhere into a body, adds its rule or nothing. */
  lemma InsertedLine(name: bytes, a: bytes, raw: bytes, b: bytes, path: bytes)
    requires WholeLines(a) && 0x0A !in raw && !Read(raw).Agent?
    ensures var with := Permitted(RulesFor(name, a + (raw + END) + b), path);
            var without := Permitted(RulesFor(name, a + b), path);
            && (Read(raw) == Nothing ==> (with <==> without))
            && (Read(raw).Entry? && Read(raw).rule.allow ==> (without ==> with))
            && (Read(raw).Entry? && !Read(raw).rule.allow ==> (with ==> without))
  {
    hide Collect, OursAfter, Lines, Read, MeansUs, Ours, RulesFor, Permitted;
    NextLine(name, a, raw);
    RulesOfTwo(name, a + (raw + END), b);
    RulesOfTwo(name, a, b);
    var x, y := RulesFor(name, a), Collect(Lower(name), Lines(b), Ours(name, a));
    if Ours(name, a) && Read(raw).Entry? {
      var rule := Read(raw).rule;
      OneMoreRule(x + y, rule, path);
      OrderIsIrrelevant(x + [rule] + y, x + y + [rule], path);
    } else {
      assert x + [] + y == x + y;
    }
  }

  // ----- What bodies permit -----

  /** A line written the plain way: keyword, colon, blank, value. */
  lemma PlainLines(v: bytes)
    requires IsValue(v)
    ensures Read(USER_AGENT_LINE + v) == Agent(Lower(v))
    ensures Read(DISALLOW_LINE + v) == if v == [] then Nothing else Entry(Rule(false, v))
    ensures Read(ALLOW_LINE + v) == if v == [] then Nothing else Entry(Rule(true, v))
  {
    hide Read;
    PlainLine(USER_AGENT_LINE, v);
    PlainLine(DISALLOW_LINE, v);
    PlainLine(ALLOW_LINE, v);
    assert Lower(USER_AGENT_LINE[..|USER_AGENT_LINE| - 2]) == USER_AGENT;
    assert Lower(DISALLOW_LINE[..|DISALLOW_LINE| - 2]) == DISALLOW;
    assert Lower(ALLOW_LINE[..|ALLOW_LINE| - 2]) == ALLOW;
  }

  lemma PlainLine(line: bytes, v: bytes)
    requires |line| > 2 && IsKeyword(line[..|line| - 2]) && line[|line| - 2..] == [0x3A, 0x20] && IsValue(v)
    ensures Read(line + v) == Statement(Lower(line[..|line| - 2]), v)
  {
    hide Read, Statement, Lower;
    var key := line[..|line| - 2];
    LineReads([], key, [], [0x20], v, [], []);
    assert Written([], key, [], [0x20], v, [], []) == line + v;
  }

  /** However a rule is written, the body means the same as with the rule written the plain way. */
  lemma SpellingDoesNotMatter(
    name: bytes, a: bytes, b: bytes, before: bytes, key: bytes, middle: bytes, after: bytes, v: bytes, end: bytes,
    comment: bytes, path: bytes)
    requires WholeLines(a) && IsPad(before) && IsPad(middle) && IsPad(after) && IsPad(end) && IsComment(comment)
    requires IsValue(v) && 0x0A !in Written(before, key, middle, after, v, end, comment)
    requires IsKeyword(key)
    requires Lowered(key) + [0x3A, 0x20] == DISALLOW_LINE || Lowered(key) + [0x3A, 0x20] == ALLOW_LINE
    ensures Permitted(RulesFor(name, a + (Written(before, key, middle, after, v, end, comment) + END) + b), path) <==>
            Permitted(RulesFor(name, a + (Lowered(key) + [0x3A, 0x20] + v + END) + b), path)
  {
    hide Collect, OursAfter, Lines, Read, MeansUs, Ours, RulesFor, Permitted, Written;
    var raw, plain := Written(before, key, middle, after, v, end, comment), Lowered(key) + [0x3A, 0x20] + v;
    LineReads(before, key, middle, after, v, end, comment);
    KeywordOf(key);
    PlainLine(Lowered(key) + [0x3A, 0x20], v);
    assert Lowered(key) + [0x3A, 0x20] + v == plain;
    assert 0x0A !in plain;
    NextLine(name, a, raw);
    NextLine(name, a, plain);
    RulesOfTwo(name, a + (raw + END), b);
    RulesOfTwo(name, a + (plain + END), b);
  }

  lemma KeywordOf(key: bytes)
    requires IsKeyword(key)
    ensures Lower(key) == Lowered(key) && Lower(Lowered(key)) == Lowered(key) && IsKeyword(Lowered(key))
    ensures (Lowered(key) + [0x3A, 0x20])[..|key|] == Lowered(key)
    ensures (Lowered(key) + [0x3A, 0x20])[|key|..] == [0x3A, 0x20]
  {
  }

  /** One more disallowed path never permits what was refused, in whatever body and wherever it is put. */
  lemma DisallowNeverPermits(name: bytes, a: bytes, p: bytes, b: bytes, path: bytes)
    requires WholeLines(a) && IsValue(p)
    ensures Permitted(RulesFor(name, a + (DISALLOW_LINE + p + END) + b), path) ==>
              Permitted(RulesFor(name, a + b), path)
  {
    hide Read, Permitted, RulesFor;
    PlainLines(p);
    InsertedLine(name, a, DISALLOW_LINE + p, b, path);
  }

  /** One more allowed path never refuses what was permitted. */
  lemma AllowNeverRefuses(name: bytes, a: bytes, p: bytes, b: bytes, path: bytes)
    requires WholeLines(a) && IsValue(p)
    ensures Permitted(RulesFor(name, a + b), path) ==> Permitted(RulesFor(name, a + (ALLOW_LINE + p + END) + b), path)
  {
    hide Read, Permitted, RulesFor;
    PlainLines(p);
    InsertedLine(name, a, ALLOW_LINE + p, b, path);
  }

  // ----- Whom a group is for -----

  ghost predicate Within(s: bytes, w: bytes) {
    exists x: bytes, y: bytes :: s == x + w + y
  }

  lemma WithinIsContained(s: bytes, w: bytes)
    ensures Within(s, w) <==> Contains(s, w)
  {
    if Within(s, w) {
      var x: bytes, y: bytes :| s == x + w + y;
      assert s[|x|..|x| + |w|] == w;
      assert At(s, |x|, w);
    }
    if Contains(s, w) {
      var i :| 0 <= i <= |s| && At(s, i, w);
      assert s == s[..i] + w + s[i + |w|..];
    }
  }

  /** A group is for us when it is for everyone, or one of the two names is part of the other, whatever their case. */
  ghost predicate IsForUs(name: bytes, agent: bytes) {
    agent == EVERYONE || Within(Lowered(name), Lowered(agent)) || Within(Lowered(agent), Lowered(name))
  }

  lemma LowerIsLowered(s: bytes)
    ensures Lower(s) == Lowered(s)
  {
    assert |Lower(s)| == |Lowered(s)|;
    assert forall i | 0 <= i < |s| :: Lower(s)[i] == Lowered(s)[i];
  }

  lemma StarIs(agent: bytes)
    ensures Lower(agent) == STAR <==> agent == EVERYONE
  {
    if Lower(agent) == STAR {
      assert |agent| == 1 && LowerByte(agent[0]) == Lower(agent)[0] == 0x2A;
      assert agent == [agent[0]];
    }
    if agent == EVERYONE {
      assert Lower(agent)[0] == LowerByte(0x2A) == 0x2A;
      assert Lower(agent) == [0x2A];
    }
  }

  lemma AgentMatch(name: bytes, agent: bytes)
    ensures MeansUs(Lower(name), Lower(agent)) <==> IsForUs(name, agent)
  {
    hide Lower, Within, Contains;
    LowerIsLowered(name);
    LowerIsLowered(agent);
    StarIs(agent);
    WithinIsContained(Lowered(name), Lowered(agent));
    WithinIsContained(Lowered(agent), Lowered(name));
  }

  /** Our own name, in any case, is for us; a name that shares no part with ours is not. */
  lemma OwnName(name: bytes, agent: bytes)
    ensures Lowered(agent) == Lowered(name) ==> IsForUs(name, agent)
  {
    if Lowered(agent) == Lowered(name) {
      assert Lowered(name) == [] + Lowered(agent) + [];
    }
  }

  lemma GroupStart(name: bytes, agent: bytes)
    requires IsValue(agent)
    ensures var a := USER_AGENT_LINE + agent + END;
            WholeLines(a) && RulesFor(name, a) == [] && (Ours(name, a) <==> IsForUs(name, agent))
  {
    hide Read, MeansUs, IsForUs, Ours, RulesFor;
    Start(name);
    PlainLines(agent);
    NextLine(name, [], USER_AGENT_LINE + agent);
    assert [] + (USER_AGENT_LINE + agent + END) == USER_AGENT_LINE + agent + END;
    AgentMatch(name, agent);
  }

  lemma RuleOfGroup(name: bytes, a: bytes, line: bytes, rule: Rule)
    requires WholeLines(a) && 0x0A !in line && Read(line) == Entry(rule)
    ensures WholeLines(a + line + END)
    ensures RulesFor(name, a + line + END) == RulesFor(name, a) + if Ours(name, a) then [rule] else []
    ensures Ours(name, a + line + END) == Ours(name, a)
  {
    hide Read, MeansUs, Ours, RulesFor;
    NextLine(name, a, line);
    assert a + (line + END) == a + line + END;
  }

  /** A group that disallows one path refuses those it is for the paths that begin with it, and nobody else anything. */
  lemma OneDisallow(name: bytes, agent: bytes, p: bytes, path: bytes)
    requires IsValue(agent) && IsValue(p) && p != []
    ensures var body := USER_AGENT_LINE + agent + END + (DISALLOW_LINE + p) + END;
            && WholeLines(body) && (Ours(name, body) <==> IsForUs(name, agent))
            && RulesFor(name, body) == (if IsForUs(name, agent) then [Rule(false, p)] else [])
            && (Permitted(RulesFor(name, body), path) <==> !(IsForUs(name, agent) && p <= path))
  {
    hide Read, IsForUs, Ours, RulesFor;
    GroupStart(name, agent);
    PlainLines(p);
    RuleOfGroup(name, USER_AGENT_LINE + agent + END, DISALLOW_LINE + p, Rule(false, p));
    PermittedByOne(Rule(false, p), path);
    NoRules(path);
  }

  lemma PermittedByOne(rule: Rule, path: bytes)
    ensures Permitted([rule], path) <==> rule.allow || !(rule.path <= path)
  {
    if rule.path <= path {
      assert Longest([rule], path, rule);
    }
  }

  /** An allowed path permits again what begins with it, exactly where it is no shorter than the disallowed one. */
  lemma DisallowAndAllow(name: bytes, agent: bytes, p: bytes, q: bytes, path: bytes)
    requires IsValue(agent) && IsValue(p) && p != [] && IsValue(q) && q != []
    ensures var body := USER_AGENT_LINE + agent + END + (DISALLOW_LINE + p) + END + (ALLOW_LINE + q) + END;
            Permitted(RulesFor(name, body), path) <==>
            !IsForUs(name, agent) || !(p <= path) || (q <= path && |q| >= |p|)
  {
    hide Read, IsForUs, Ours, RulesFor;
    OneDisallow(name, agent, p, path);
    PlainLines(q);
    RuleOfGroup(name, USER_AGENT_LINE + agent + END + (DISALLOW_LINE + p) + END, ALLOW_LINE + q, Rule(true, q));
    PermittedByTwo(p, q, path);
    NoRules(path);
  }

  lemma PermittedByTwo(p: bytes, q: bytes, path: bytes)
    ensures Permitted([Rule(false, p)] + [Rule(true, q)], path) <==> !(p <= path) || (q <= path && |q| >= |p|)
  {
    var no, yes := Rule(false, p), Rule(true, q);
    var rules := [no] + [yes];
    assert rules[0] == no && rules[1] == yes;
    assert forall r :: r in rules <==> r == no || r == yes;
    assert no in rules && (Matches(no, path) <==> p <= path) && (Matches(yes, path) <==> q <= path);
    assert Longest(rules, path, yes) <==> q <= path && (p <= path ==> |p| <= |q|);
  }

  // ----- Addresses -----

  const SCHEME_MARK: bytes := [0x3A, 0x2F, 0x2F]
  const ROBOTS_FILE: bytes := [0x72, 0x6F, 0x62, 0x6F, 0x74, 0x73, 0x2E, 0x74, 0x78, 0x74]

  /** The parts of an address: the host ends at a slash, a query or a fragment, the path at one of the latter two. */
  ghost predicate AreParts(scheme: bytes, host: bytes, path: bytes, tail: bytes) {
    && 0x3A !in scheme
    && host != [] && 0x2F !in host && 0x3F !in host && 0x23 !in host
    && path != [] && path[0] == 0x2F && 0x3F !in path && 0x23 !in path
    && (tail == [] || tail[0] == 0x3F || tail[0] == 0x23)
  }

  lemma SchemeEndIs(scheme: bytes, rest: bytes)
    requires 0x3A !in scheme
    ensures SchemeEnd(scheme + SCHEME_MARK + rest, 0) == |scheme|
  {
    hide SchemeEnd;
    var url := scheme + SCHEME_MARK + rest;
    assert url[|scheme|..|scheme| + 3] == SCHEME_MARK;
    assert At(url, |scheme|, SCHEME_END);
    forall i: nat | i < |scheme|
      ensures !At(url, i, SCHEME_END)
    {
      assert url[i] == scheme[i];
      if At(url, i, SCHEME_END) {
        AtFirst(url, i, SCHEME_END);
      }
    }
  }

  lemma FirstOfBehind(url: bytes, a: bytes, b: bytes, stops: set<byte>)
    requires url == a + b
    ensures FirstOf(url, stops, |a|) == |a| + FirstOf(b, stops, 0)
  {
    hide FirstOf;
    FirstOfSlice(url, stops, |a|, 0);
    assert url[|a|..] == b;
  }

  lemma HostStops(host: bytes, path: bytes, tail: bytes, stops: set<byte>)
    requires AreParts([], host, path, tail) && SLASH in stops && stops <= {SLASH, QUESTION, HASH}
    ensures FirstOf(host + path + tail, stops, 0) == |host|
  {
    hide FirstOf;
    var rest := host + path + tail;
    assert rest[|host|] == path[0];
    assert forall i | 0 <= i < |host| :: rest[i] == host[i];
    FirstOfIs(rest, stops, |host|);
  }

  lemma PathStops(path: bytes, tail: bytes)
    requires QUESTION !in path && HASH !in path && (tail == [] || tail[0] == QUESTION || tail[0] == HASH)
    ensures FirstOf(path + tail, {QUESTION, HASH}, 0) == |path|
  {
    hide FirstOf;
    FirstOfIs(path + tail, {QUESTION, HASH}, |path|);
  }

  /** Behind the scheme, the host ends at its first stop and the path at its own. */
  lemma StopsOf(front: bytes, host: bytes, path: bytes, tail: bytes)
    requires AreParts([], host, path, tail)
    ensures var url := front + host + path + tail;
            && FirstOf(url, {SLASH, QUESTION, HASH}, |front|) == FirstOf(url, {SLASH}, |front|) == |front| + |host|
            && FirstOf(url, {QUESTION, HASH}, |front| + |host|) == |front| + |host| + |path|
  {
    HostStops(host, path, tail, {SLASH, QUESTION, HASH});
    HostStops(host, path, tail, {SLASH});
    PathStops(path, tail);
    hide FirstOf, AreParts;
    var url := front + host + path + tail;
    Regrouped(front, host, path, tail);
    FirstOfBehind(url, front, host + path + tail, {SLASH, QUESTION, HASH});
    FirstOfBehind(url, front, host + path + tail, {SLASH});
    FirstOfBehind(url, front + host, path + tail, {QUESTION, HASH});
  }

  lemma Regrouped(front: bytes, host: bytes, path: bytes, tail: bytes)
    ensures front + host + path + tail == front + (host + path + tail)
    ensures front + host + path + tail == (front + host) + (path + tail)
  {
  }

  lemma OriginAt(url: bytes, front: bytes, host: bytes, rest: bytes)
    requires |front| >= 3 && SchemeEnd(url, 0) == |front| - 3 && url == front + host + rest && host != []
    requires FirstOf(url, {SLASH, QUESTION, HASH}, |front|) == |front| + |host|
    ensures OriginOf(url) == front + Lowered(host)
  {
    hide FirstOf, SchemeEnd;
    assert url[|front|..|front| + |host|] == host && url[..|front|] == front;
    LowerIsLowered(host);
  }

  lemma PathAt(url: bytes, before: bytes, path: bytes, tail: bytes)
    requires SchemeEnd(url, 0) + 3 <= |before| && url == before + path + tail && path != []
    requires FirstOf(url, {SLASH}, SchemeEnd(url, 0) + 3) == |before|
    requires FirstOf(url, {QUESTION, HASH}, |before|) == |before| + |path|
    ensures PathOf(url) == path
  {
    hide FirstOf, SchemeEnd;
    assert url[|before|..|before| + |path|] == path;
  }

  /** The origin is scheme and host, the host in small letters; the path is what stands before query and fragment. */
  lemma PartsOfAddress(scheme: bytes, host: bytes, path: bytes, tail: bytes)
    requires AreParts(scheme, host, path, tail)
    ensures var url := scheme + SCHEME_MARK + host + path + tail;
            OriginOf(url) == scheme + SCHEME_MARK + Lowered(host) && PathOf(url) == path
  {
    hide FirstOf, SchemeEnd, AreParts, OriginOf, PathOf, Lowered;
    var front := scheme + SCHEME_MARK;
    var url := front + host + path + tail;
    PartsAreParts(scheme, host, path, tail);
    Regrouped(front, host, path, tail);
    SchemeEndIs(scheme, host + path + tail);
    StopsOf(front, host, path, tail);
    OriginAt(url, front, host, path + tail);
    assert url == (front + host) + path + tail;
    PathAt(url, front + host, path, tail);
  }

  lemma PartsAreParts(scheme: bytes, host: bytes, path: bytes, tail: bytes)
    requires AreParts(scheme, host, path, tail)
    ensures 0x3A !in scheme && host != [] && path != [] && AreParts([], host, path, tail)
  {
  }

  /** An address that ends with its host, or goes on without any slash, is about the root. */
  lemma RootOfAddress(scheme: bytes, host: bytes, tail: bytes)
    requires AreParts(scheme, host, [0x2F], tail) && 0x2F !in tail
    ensures var url := scheme + SCHEME_MARK + host + tail;
            OriginOf(url) == scheme + SCHEME_MARK + Lowered(host) && PathOf(url) == [0x2F]
  {
    hide FirstOf, SchemeEnd;
    var front, rest := scheme + SCHEME_MARK, host + tail;
    var url := front + host + tail;
    assert url == front + rest;
    SchemeEndIs(scheme, rest);
    FirstOfBehind(url, front, rest, {SLASH, QUESTION, HASH});
    FirstOfBehind(url, front, rest, {SLASH});
    FirstOfIs(rest, {SLASH, QUESTION, HASH}, |host|);
    FirstOfIs(rest, {SLASH}, |rest|);
    assert url[|front|..|front| + |host|] == host;
    assert url[..|front|] == front && Lower(host) == Lowered(host);
  }

  /** An address without a scheme has no origin, and its path is the root. */
  lemma NoScheme(url: bytes)
    requires !Within(url, SCHEME_MARK)
    ensures OriginOf(url) == [] && PathOf(url) == [0x2F]
  {
    WithinIsContained(url, SCHEME_MARK);
  }

  /**
    The first page of a site, whose robots.txt disallows one path to one agent: it is fetched unless the agent is us and
    the path of the page begins with that one.
    */
  method VisitUnderDisallow(
    name: bytes, agent: bytes, p: bytes, scheme: bytes, host: bytes, path: bytes, tail: bytes) returns (r: bool)
    requires IsValue(agent) && IsValue(p) && p != [] && AreParts(scheme, host, path, tail)
    ensures r <==>
            || Within(scheme + SCHEME_MARK + host + path + tail, ROBOTS_FILE)
            || !IsForUs(name, agent) || !(p <= path)
  {
    hide Read, IsForUs, Ours, RulesFor, OriginOf, PathOf, Permitted, Contains, Known, Within, AreParts;
    var url := scheme + SCHEME_MARK + host + path + tail;
    var robots := new RobotsTxt(name);
    r := robots.MayFetch(url, Fetched(USER_AGENT_LINE + agent + END + (DISALLOW_LINE + p) + END));
    OneDisallow(name, agent, p, path);
    PartsOfAddress(scheme, host, path, tail);
    WithinIsContained(url, ROBOTS_FILE);
    NothingKnown(OriginOf(url));
  }

  /** The same with a path allowed again: the longer of the two decides, and the allowed one in a tie. */
  method VisitUnderBoth(
    name: bytes, agent: bytes, p: bytes, q: bytes, scheme: bytes, host: bytes, path: bytes, tail: bytes)
    returns (r: bool)
    requires IsValue(agent) && IsValue(p) && p != [] && IsValue(q) && q != [] && AreParts(scheme, host, path, tail)
    ensures r <==>
            || Within(scheme + SCHEME_MARK + host + path + tail, ROBOTS_FILE)
            || !IsForUs(name, agent) || !(p <= path) || (q <= path && |q| >= |p|)
  {
    hide Read, IsForUs, Ours, RulesFor, OriginOf, PathOf, Permitted, Contains, Known, Within, AreParts;
    var url := scheme + SCHEME_MARK + host + path + tail;
    var robots := new RobotsTxt(name);
    var body := USER_AGENT_LINE + agent + END + (DISALLOW_LINE + p) + END + (ALLOW_LINE + q) + END;
    r := robots.MayFetch(url, Fetched(body));
    DisallowAndAllow(name, agent, p, q, path);
    PartsOfAddress(scheme, host, path, tail);
    WithinIsContained(url, ROBOTS_FILE);
    NothingKnown(OriginOf(url));
  }

  /** A site whose robots.txt cannot be fetched, or whose address has no origin, refuses nothing. */
  method VisitAfterFailure(name: bytes, url: bytes) returns (r: bool)
    ensures r
  {
    hide OriginOf, PathOf, Permitted, Contains, Known;
    var robots := new RobotsTxt(name);
    r := robots.MayFetch(url, Failed);
    NothingKnown(OriginOf(url));
    NoRules(PathOf(url));
  }
}
