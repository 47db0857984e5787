/** What a robots.txt body says and what a list of rules permits (src/robots_txt.cpp; RFC 9309, section 2.2). */
module RobotsRules {
  import opened Bytes

  const NEWLINE: byte := 0x0A
  const SLASH: byte := 0x2F
  const HASH: byte := 0x23
  const COLON: byte := 0x3A
  const QUESTION: byte := 0x3F

  const STAR: bytes := [0x2A]
  const SCHEME_END: bytes := [0x3A, 0x2F, 0x2F]
  const USER_AGENT: bytes := [0x75, 0x73, 0x65, 0x72, 0x2D, 0x61, 0x67, 0x65, 0x6E, 0x74]
  const ALLOW: bytes := [0x61, 0x6C, 0x6C, 0x6F, 0x77]
  const DISALLOW: bytes := [0x64, 0x69, 0x73, 0x61, 0x6C, 0x6C, 0x6F, 0x77]

  datatype Rule = Rule(allow: bool, path: bytes)

  // ----- Text -----

  function LowerByte(c: byte): byte {
    if 0x41 <= c <= 0x5A then c + 0x20 else c
  }

  function Lower(s: bytes): (r: bytes)
    ensures |r| == |s|
  {
    seq(|s|, i requires 0 <= i < |s| => LowerByte(s[i]))
  }

  predicate IsSpace(c: byte) {
    c == 0x20 || 0x09 <= c <= 0x0D
  }

  function TrimLeft(s: bytes): (r: bytes)
    ensures r == [] || !IsSpace(r[0])
  {
    if s != [] && IsSpace(s[0]) then TrimLeft(s[1..]) else s
  }

  function TrimRight(s: bytes): (r: bytes)
    ensures r <= s
    ensures r == [] || !IsSpace(r[|r| - 1])
  {
    if s != [] && IsSpace(s[|s| - 1]) then TrimRight(s[..|s| - 1]) else s
  }

  function Trim(s: bytes): (r: bytes)
    ensures r == [] || (!IsSpace(r[0]) && !IsSpace(r[|r| - 1]))
  {
    TrimRight(TrimLeft(s))
  }

  /** The first place from `from` on that holds one of the stops; the end when there is none. */
  function FirstOf(s: bytes, stops: set<byte>, from: nat): (r: nat)
    requires from <= |s|
    ensures from <= r <= |s|
    ensures r < |s| ==> s[r] in stops
    ensures forall i :: from <= i < r ==> s[i] !in stops
    decreases |s| - from
  {
    if from == |s| || s[from] in stops then from else FirstOf(s, stops, from + 1)
  }

  predicate Contains(s: bytes, w: bytes) {
    exists i | 0 <= i <= |s| :: At(s, i, w)
  }

  /** Where `://` is written first; the end when it is not. */
  function SchemeEnd(url: bytes, from: nat): (r: nat)
    requires from <= |url|
    ensures from <= r <= |url|
    ensures r < |url| ==> At(url, r, SCHEME_END) && r + 3 <= |url|
    ensures forall i :: from <= i < r ==> !At(url, i, SCHEME_END)
    decreases |url| - from
  {
    if from == |url| || At(url, from, SCHEME_END) then from else SchemeEnd(url, from + 1)
  }

  // ----- Addresses -----

  /** Scheme and host, the host in lower case; empty when the address has none. */
  function OriginOf(url: bytes): bytes {
    var scheme := SchemeEnd(url, 0);
    if scheme == |url| then []
    else
      var host := url[scheme + 3..FirstOf(url, {SLASH, QUESTION, HASH}, scheme + 3)];
      if host == [] then [] else url[..scheme + 3] + Lower(host)
  }

  /** From the first slash behind the scheme up to a query or fragment; `/` when there is no slash. */
  function PathOf(url: bytes): (path: bytes)
    ensures path != [] && path[0] == SLASH
    ensures QUESTION !in path && HASH !in path
  {
    var scheme := SchemeEnd(url, 0);
    if scheme == |url| then [SLASH]
    else
      var slash := FirstOf(url, {SLASH}, scheme + 3);
      if slash == |url| then [SLASH]
      else url[slash..FirstOf(url, {QUESTION, HASH}, slash)]
  }

  // ----- Reading a body -----

  /** What `std::getline` yields: an unfinished last line counts, an empty one does not. */
  function Lines(body: bytes): seq<bytes> {
    if body == [] then []
    else
      var end := FirstOf(body, {NEWLINE}, 0);
      [body[..end]] + if end < |body| then Lines(body[end + 1..]) else []
  }

  datatype Directive = Agent(name: bytes) | Entry(rule: Rule) | Nothing

  function StripComment(line: bytes): bytes {
    line[..FirstOf(line, {HASH}, 0)]
  }

  function ColonOf(line: bytes): (r: nat)
    ensures r <= |line|
  {
    FirstOf(Lower(line), {COLON}, 0)
  }

  function KeyOf(line: bytes): bytes {
    Trim(Lower(line)[..ColonOf(line)])
  }

  /** The value follows the first colon; without a colon the whole line is both key and value. */
  function ValueOf(line: bytes): bytes {
    var colon := ColonOf(line);
    Trim(if colon < |line| then line[colon + 1..] else line)
  }

  function Statement(key: bytes, value: bytes): Directive {
    if key == USER_AGENT then Agent(Lower(value))
    else if key == ALLOW && value != [] then Entry(Rule(true, value))
    else if key == DISALLOW && value != [] then Entry(Rule(false, value))
    else Nothing
  }

  /** What one line of the body says. */
  function Read(raw: bytes): (d: Directive)
    ensures d.Entry? ==> d.rule.path != []
  {
    var line := Trim(StripComment(raw));
    Statement(KeyOf(line), ValueOf(line))
  }

  /** Whether a group is meant for us; both names are in lower case. */
  predicate MeansUs(us: bytes, agent: bytes) {
    agent == STAR || Contains(us, agent) || Contains(agent, us)
  }

  /** The rules for us, read line by line; `ours` says whether the current group is meant for us. */
  function Collect(us: bytes, lines: seq<bytes>, ours: bool): seq<Rule> {
    if lines == [] then []
    else
      match Read(lines[0])
      case Agent(name) => Collect(us, lines[1..], MeansUs(us, name))
      case Entry(rule) => (if ours then [rule] else []) + Collect(us, lines[1..], ours)
      case Nothing => Collect(us, lines[1..], ours)
  }

  /** What `parseBody` extracts for a crawler of the given name. */
  function RulesFor(name: bytes, body: bytes): seq<Rule> {
    Collect(Lower(name), Lines(body), false)
  }

  /** The last user-agent line before line `i` is meant for us. */
  ghost predicate Governed(us: bytes, lines: seq<bytes>, i: nat) {
    exists j: nat ::
      && j < i && j < |lines|
      && Read(lines[j]).Agent? && MeansUs(us, Read(lines[j]).name)
      && forall k | j < k < i && k < |lines| :: !Read(lines[k]).Agent?
  }

  /** Whether the current group is ours after the lines. */
  function OursAfter(us: bytes, lines: seq<bytes>, ours: bool): bool {
    if lines == [] then ours
    else
      match Read(lines[0])
      case Agent(name) => OursAfter(us, lines[1..], MeansUs(us, name))
      case _ => OursAfter(us, lines[1..], ours)
  }

  lemma {:induction false} CollectAppend(us: bytes, a: seq<bytes>, b: seq<bytes>, ours: bool)
    ensures Collect(us, a + b, ours) == Collect(us, a, ours) + Collect(us, b, OursAfter(us, a, ours))
    ensures OursAfter(us, a + b, ours) == OursAfter(us, b, OursAfter(us, a, ours))
    decreases |a|
  {
    hide Read, MeansUs;
    if a == [] {
      assert a + b == b;
    } else {
      assert (a + b)[1..] == a[1..] + b;
      match Read(a[0])
      case Agent(name) => CollectAppend(us, a[1..], b, MeansUs(us, name));
      case _ => CollectAppend(us, a[1..], b, ours);
    }
  }

  lemma CollectOne(us: bytes, line: bytes, ours: bool)
    ensures Collect(us, [line], ours) == if ours && Read(line).Entry? then [Read(line).rule] else []
    ensures OursAfter(us, [line], ours) == if Read(line).Agent? then MeansUs(us, Read(line).name) else ours
  {
    hide Read, MeansUs;
    assert [line][1..] == [];
  }

  lemma {:induction false} OursMeansGoverned(us: bytes, lines: seq<bytes>, n: nat)
    requires n <= |lines|
    ensures OursAfter(us, lines[..n], false) <==> Governed(us, lines, n)
  {
    hide Read, MeansUs;
    if n > 0 {
      var line := lines[n - 1];
      assert lines[..n] == lines[..n - 1] + [line];
      CollectAppend(us, lines[..n - 1], [line], false);
      CollectOne(us, line, OursAfter(us, lines[..n - 1], false));
      OursMeansGoverned(us, lines, n - 1);
      GovernedStep(us, lines, n);
    }
  }

  lemma GovernedStep(us: bytes, lines: seq<bytes>, n: nat)
    requires 0 < n <= |lines|
    ensures var d := Read(lines[n - 1]);
            Governed(us, lines, n) <==> if d.Agent? then MeansUs(us, d.name) else Governed(us, lines, n - 1)
  {
    hide Read, MeansUs;
    var d := Read(lines[n - 1]);
    if d.Agent? && Governed(us, lines, n) {
      var j: nat :| j < n && Read(lines[j]).Agent? && MeansUs(us, Read(lines[j]).name)
                    && forall k | j < k < n && k < |lines| :: !Read(lines[k]).Agent?;
      assert j == n - 1;
    }
  }

  /** A rule is kept exactly when some line states it and the last user-agent line above is meant for us. */
  lemma KeptRules(name: bytes, body: bytes, rule: Rule)
    ensures rule in RulesFor(name, body) <==>
            exists i: nat ::
              i < |Lines(body)| && Read(Lines(body)[i]) == Entry(rule) && Governed(Lower(name), Lines(body), i)
  {
    KeptUpTo(Lower(name), Lines(body), |Lines(body)|, rule);
    assert Lines(body)[..|Lines(body)|] == Lines(body);
  }

  lemma {:induction false} KeptUpTo(us: bytes, lines: seq<bytes>, n: nat, rule: Rule)
    requires n <= |lines|
    ensures rule in Collect(us, lines[..n], false) <==>
            exists i: nat :: i < n && Read(lines[i]) == Entry(rule) && Governed(us, lines, i)
  {
    hide Read, MeansUs, Governed;
    if n > 0 {
      var line := lines[n - 1];
      assert lines[..n] == lines[..n - 1] + [line];
      CollectAppend(us, lines[..n - 1], [line], false);
      CollectOne(us, line, OursAfter(us, lines[..n - 1], false));
      OursMeansGoverned(us, lines, n - 1);
      KeptUpTo(us, lines, n - 1, rule);
    }
  }

  /** No stored path is empty: an empty value says nothing. */
  predicate NoEmptyPath(rules: seq<Rule>) {
    forall r | r in rules :: r.path != []
  }

  lemma {:induction false} CollectedPaths(us: bytes, lines: seq<bytes>, ours: bool)
    ensures NoEmptyPath(Collect(us, lines, ours))
    decreases |lines|
  {
    hide Read, MeansUs;
    if lines != [] {
      match Read(lines[0])
      case Agent(name) => CollectedPaths(us, lines[1..], MeansUs(us, name));
      case _ => CollectedPaths(us, lines[1..], ours);
    }
  }

  // ----- The verdict -----

  /** A rule speaks of every path that begins with its own. */
  predicate Matches(rule: Rule, path: bytes) {
    rule.path <= path
  }

  ghost predicate Longest(rules: seq<Rule>, path: bytes, rule: Rule) {
    && rule in rules && Matches(rule, path)
    && forall other | other in rules && Matches(other, path) :: |other.path| <= |rule.path|
  }

  /** No rule matches, or an allowing one is among the longest that do. */
  ghost predicate Permitted(rules: seq<Rule>, path: bytes) {
    || (forall rule | rule in rules :: !Matches(rule, path))
    || exists rule: Rule :: rule.allow && Longest(rules, path, rule)
  }

  /** Rules of two lists that have the same members permit the same: order and repetition do not matter. */
  lemma OrderIsIrrelevant(a: seq<Rule>, b: seq<Rule>, path: bytes)
    requires forall rule :: rule in a <==> rule in b
    ensures Permitted(a, path) <==> Permitted(b, path)
  {
  }

  /** One more rule can only turn the verdict its own way, and does so only where it is the longest that matches. */
  lemma OneMoreRule(rules: seq<Rule>, rule: Rule, path: bytes)
    ensures rule.allow && Permitted(rules, path) ==> Permitted(rules + [rule], path)
    ensures !rule.allow && Permitted(rules + [rule], path) ==> Permitted(rules, path)
    ensures !Longest(rules + [rule], path, rule) ==> (Permitted(rules + [rule], path) <==> Permitted(rules, path))
  {
  }

  /** When a rule matches, one of the matching rules is the longest. */
  lemma {:induction false} SomeLongest(rules: seq<Rule>, path: bytes)
    ensures (exists rule :: rule in rules && Matches(rule, path)) ==> exists rule :: Longest(rules, path, rule)
  {
    hide Matches;
    if rules != [] {
      var last, rest := rules[|rules| - 1], rules[..|rules| - 1];
      assert rules == rest + [last];
      SomeLongest(rest, path);
      if exists rule :: Longest(rest, path, rule) {
        var rule :| Longest(rest, path, rule);
        assert Longest(rules, path, rule) || Longest(rules, path, last);
      } else if Matches(last, path) {
        assert Longest(rules, path, last);
      }
    }
  }

  /** What a single pass over the rules has to know so far: the longest match, and whether an allowing rule has it. */
  ghost predicate BestSoFar(rules: seq<Rule>, path: bytes, matched: bool, bestLen: nat, bestAllow: bool) {
    && (matched <==> bestLen > 0)
    && (forall r | r in rules && Matches(r, path) :: |r.path| <= bestLen)
    && (matched ==> exists r :: r in rules && Matches(r, path) && |r.path| == bestLen)
    && (bestAllow <==> (matched ==> exists r: Rule ::
                           r in rules && Matches(r, path) && |r.path| == bestLen && r.allow))
  }

  lemma BestStep(rules: seq<Rule>, rule: Rule, path: bytes, matched: bool, bestLen: nat, bestAllow: bool)
    requires BestSoFar(rules, path, matched, bestLen, bestAllow) && rule.path != []
    ensures !Matches(rule, path) || |rule.path| < bestLen ==>
              BestSoFar(rules + [rule], path, matched, bestLen, bestAllow)
    ensures Matches(rule, path) && |rule.path| == bestLen ==>
              BestSoFar(rules + [rule], path, true, bestLen, bestAllow || rule.allow)
    ensures Matches(rule, path) && |rule.path| > bestLen ==>
              BestSoFar(rules + [rule], path, true, |rule.path|, rule.allow)
  {
    hide Matches;
    assert forall r :: r in rules + [rule] <==> r in rules || r == rule;
  }

  lemma BestDecides(rules: seq<Rule>, path: bytes, matched: bool, bestLen: nat, bestAllow: bool)
    requires BestSoFar(rules, path, matched, bestLen, bestAllow) && NoEmptyPath(rules)
    ensures (!matched || bestAllow) <==> Permitted(rules, path)
  {
  }

  // ----- Groups -----

  /** A text of whole lines that begins a group of its own. */
  predicate IsGroups(body: bytes) {
    && body != [] && body[|body| - 1] == NEWLINE
    && Lines(body) != [] && Read(Lines(body)[0]).Agent?
  }

  lemma NoLines(body: bytes)
    requires body == []
    ensures Lines(body) == []
  {
  }

  lemma FirstLine(body: bytes, end: nat)
    requires body != [] && end == FirstOf(body, {NEWLINE}, 0)
    ensures Lines(body) == [body[..end]] + if end < |body| then Lines(body[end + 1..]) else []
  {
  }

  lemma {:induction false} LinesAppend(a: bytes, b: bytes)
    requires a != [] && a[|a| - 1] == NEWLINE
    ensures Lines(a + b) == Lines(a) + Lines(b)
    decreases |a|
  {
    hide FirstOf, Lines;
    var end := FirstOf(a, {NEWLINE}, 0);
    var rest := a[end + 1..];
    FirstOfPrefix(a, b, {NEWLINE}, 0);
    FirstLine(a, end);
    FirstLine(a + b, end);
    assert (a + b)[..end] == a[..end] && (a + b)[end + 1..] == rest + b;
    if rest != [] {
      assert rest[|rest| - 1] == a[|a| - 1];
      LinesAppend(rest, b);
    } else {
      assert rest + b == b;
      NoLines(rest);
    }
  }

  lemma {:induction false} FirstOfPrefix(a: bytes, b: bytes, stops: set<byte>, from: nat)
    requires from <= |a| && FirstOf(a, stops, from) < |a|
    ensures FirstOf(a + b, stops, from) == FirstOf(a, stops, from)
    decreases |a| - from
  {
    if from < |a| && a[from] !in stops {
      FirstOfPrefix(a, b, stops, from + 1);
    }
  }

  lemma GroupStartsAfresh(us: bytes, lines: seq<bytes>, ours: bool)
    requires lines != [] && Read(lines[0]).Agent?
    ensures Collect(us, lines, ours) == Collect(us, lines, false)
  {
  }

  /** The groups of a body may be written in any order. */
  lemma GroupsCommute(name: bytes, a: bytes, b: bytes, path: bytes)
    requires IsGroups(a) && IsGroups(b)
    ensures Permitted(RulesFor(name, a + b), path) <==> Permitted(RulesFor(name, b + a), path)
  {
    hide Read, MeansUs, Permitted, Collect, Lines;
    var us, p, q := Lower(name), Lines(a), Lines(b);
    LinesAppend(a, b);
    LinesAppend(b, a);
    CollectAppend(us, p, q, false);
    CollectAppend(us, q, p, false);
    GroupStartsAfresh(us, q, OursAfter(us, p, false));
    GroupStartsAfresh(us, p, OursAfter(us, q, false));
    OrderIsIrrelevant(RulesFor(name, a + b), RulesFor(name, b + a), path);
  }
}
