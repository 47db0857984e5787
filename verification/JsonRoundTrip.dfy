/** Parsing undoes printing, in both layouts, for arbitrary nesting and arbitrary byte strings. */
module JsonRoundTrip {
  import opened Bytes
  import opened JsonGrammar
  import opened JsonNumerals
  import opened JsonParser
  import opened JsonPrinter
  import opened JsonStrings

  /** Every number in the value is printed as a number, by the printer itself or by the stream. */
  predicate Printable(v: Value, format: NumberFormat)
    decreases v, 1
  {
    match v
    case Number(n) => NumberShaped(NumberText(n, format))
    case Array(items) => AllPrintable(items, format)
    case Object(members) => MembersPrintable(members, format)
    case _ => true
  }

  predicate AllPrintable(items: seq<Value>, format: NumberFormat)
    decreases items, 0
  {
    items == [] || (Printable(items[0], format) && AllPrintable(items[1..], format))
  }

  predicate MembersPrintable(members: seq<Member>, format: NumberFormat)
    decreases members, 0
  {
    members == [] || (Printable(members[0].value, format) && MembersPrintable(members[1..], format))
  }

  /** A value as it comes back: the same, except that each number is what its text denotes. */
  function Reread(v: Value, format: NumberFormat): Value
    decreases v, 1
  {
    match v
    case Number(n) => Number(StrToD(NumberText(n, format)))
    case Array(items) => Array(RereadAll(items, format))
    case Object(members) => Object(RereadMembers(members, format))
    case _ => v
  }

  function RereadAll(items: seq<Value>, format: NumberFormat): (r: seq<Value>)
    ensures |r| == |items|
    decreases items, 0
  {
    if items == [] then [] else [Reread(items[0], format)] + RereadAll(items[1..], format)
  }

  function RereadMembers(members: seq<Member>, format: NumberFormat): (r: seq<Member>)
    ensures |r| == |members|
    decreases members, 0
  {
    if members == [] then []
    else [RereadMember(members[0], format)] + RereadMembers(members[1..], format)
  }

  function RereadMember(m: Member, format: NumberFormat): Member
    decreases m, 2
  {
    Member(m.key, Reread(m.value, format))
  }

  // ----- What is printed -----

  /** In the pretty layout, a new line and two blanks for each level. */
  function NewLine(pretty: bool, level: nat): bytes {
    if pretty then [0x0A] + seq(2 * level, _ => 0x20) else []
  }

  lemma ShapedIsNumeral(text: bytes)
    requires NumberShaped(text)
    ensures exists n: Numeral :: n.Valid() && n.Text() == text
  {
    hide StrToD, DigitsEnd, FractionEnd, ExponentEnd, Numeral.Text, Numeral.Value;
    assert text[0..|text|] == text;
    var n := NumberIsNumeral(text, 0);
    assert text[..|text|] == text;
  }

  ghost function NumeralFor(text: bytes): (n: Numeral)
    requires NumberShaped(text)
    ensures n.Valid() && n.Text() == text
  {
    ShapedIsNumeral(text);
    var n: Numeral :| n.Valid() && n.Text() == text;
    n
  }

  /**
    The document that is printed for a value: every item of a list on a line of its own, the closing bracket on the
    next one; one blank behind a colon; and in the compact layout no white space at all.
    */
  ghost function Laid(v: Value, pretty: bool, level: nat, format: NumberFormat): (d: Doc)
    requires Printable(v, format)
    ensures Valid(d)
    decreases v, 1
  {
    match v
    case Null => NullWord
    case Bool(b) => if b then TrueWord else FalseWord
    case Number(n) => Num(NumeralFor(NumberText(n, format)))
    case String(s) => Str(PiecesOf(s))
    case Array(items) => Arr(LaidItems(items, pretty, level, format), [])
    case Object(members) => Obj(LaidEntries(members, pretty, level, format), [])
  }

  ghost function LaidItems(items: seq<Value>, pretty: bool, level: nat, format: NumberFormat): (r: seq<Item>)
    requires AllPrintable(items, format)
    ensures ValidItems(r) && |r| == |items|
    decreases items, 0
  {
    if items == [] then []
    else [Item(NewLine(pretty, level + 1), Laid(items[0], pretty, level + 1, format),
               if |items| == 1 then NewLine(pretty, level) else [])]
         + LaidItems(items[1..], pretty, level, format)
  }

  ghost function LaidEntry(m: Member, last: bool, pretty: bool, level: nat, format: NumberFormat): (e: Entry)
    requires Printable(m.value, format)
    ensures ValidEntry(e)
    decreases m, 2
  {
    Entry(NewLine(pretty, level + 1), PiecesOf(m.key), [], if pretty then [0x20] else [],
          Laid(m.value, pretty, level + 1, format), if last then NewLine(pretty, level) else [])
  }

  ghost function LaidEntries(members: seq<Member>, pretty: bool, level: nat, format: NumberFormat): (r: seq<Entry>)
    requires MembersPrintable(members, format)
    ensures ValidEntries(r) && |r| == |members|
    decreases members, 0
  {
    if members == [] then []
    else [LaidEntry(members[0], |members| == 1, pretty, level, format)]
         + LaidEntries(members[1..], pretty, level, format)
  }

  lemma BreakIsNewLine(pretty: bool, level: nat)
    ensures Break(pretty, level) == NewLine(pretty, level)
  {
  }

  lemma QuotedIsSpelled(str: bytes)
    ensures Quoted(str) == StringText(PiecesOf(str))
  {
    hide Spelled, Escape;
    PrintedIsSpelled(str);
  }

  /** The printer prints that document. */
  lemma {:induction false} LaidText(v: Value, pretty: bool, level: nat, format: NumberFormat)
    requires Printable(v, format)
    ensures Dump(v, pretty, level, format) == Text(Laid(v, pretty, level, format))
    decreases v, 1
  {
    hide Numeral.Text, NumberText, Elements, Members, Quoted;
    hide ItemsText, EntriesText, StringText, LaidItems, LaidEntries;
    match v
    case Array(items) =>
      if items != [] {
        LaidItemsText(items, pretty, level, format);
        Associative([0x5B], Elements(items, pretty, level + 1, format), Break(pretty, level) + [0x5D]);
      }
    case Object(members) =>
      if members != [] {
        LaidEntriesText(members, pretty, level, format);
        Associative([0x7B], Members(members, pretty, level + 1, format), Break(pretty, level) + [0x7D]);
      }
    case String(s) => QuotedIsSpelled(s);
    case _ =>
  }

  lemma ItemGrouping(b: bytes, d: bytes, e: bytes, c: bytes, rest: bytes)
    ensures b + d + [] + (e + c) == b + (d + e) + c
    ensures b + d + (c + rest) + e == b + (d + []) + (c + (rest + e))
  {
  }

  lemma {:induction false} LaidItemsText(items: seq<Value>, pretty: bool, level: nat, format: NumberFormat)
    requires items != [] && AllPrintable(items, format)
    ensures ItemsText(LaidItems(items, pretty, level, format)) ==
            Elements(items, pretty, level + 1, format) + (Break(pretty, level) + [0x5D])
    decreases items, 0
  {
    hide Dump, Laid, Text, Break, NewLine;
    BreakIsNewLine(pretty, level);
    BreakIsNewLine(pretty, level + 1);
    LaidText(items[0], pretty, level + 1, format);
    var b, d := Break(pretty, level + 1), Dump(items[0], pretty, level + 1, format);
    var close := Break(pretty, level) + [0x5D];
    var r := LaidItems(items, pretty, level, format);
    if |items| == 1 {
      ItemGrouping(b, d, Break(pretty, level), [0x5D], []);
    } else {
      assert r[1..] == LaidItems(items[1..], pretty, level, format);
      LaidItemsText(items[1..], pretty, level, format);
      ItemGrouping(b, d, close, [0x2C], Elements(items[1..], pretty, level + 1, format));
    }
  }

  lemma EntryGrouping(b: bytes, k: bytes, g: bytes, d: bytes, e: bytes)
    ensures b + (k + ([] + ([0x3A] + (g + (d + e))))) == b + ((k + [0x3A] + g + d) + e)
  {
  }

  lemma LaidEntryText(m: Member, last: bool, pretty: bool, level: nat, format: NumberFormat)
    requires Printable(m.value, format)
    requires Dump(m.value, pretty, level + 1, format) == Text(Laid(m.value, pretty, level + 1, format))
    ensures EntryText(LaidEntry(m, last, pretty, level, format)) ==
            Break(pretty, level + 1)
            + (MemberText(m, pretty, level + 1, format) + if last then Break(pretty, level) else [])
  {
    hide Dump, Laid, Text, Break, NewLine, Quoted, StringText;
    BreakIsNewLine(pretty, level);
    BreakIsNewLine(pretty, level + 1);
    QuotedIsSpelled(m.key);
    EntryGrouping(Break(pretty, level + 1), Quoted(m.key), Gap(pretty), Dump(m.value, pretty, level + 1, format),
                  if last then Break(pretty, level) else []);
  }

  lemma {:induction false} LaidEntriesText(members: seq<Member>, pretty: bool, level: nat, format: NumberFormat)
    requires members != [] && MembersPrintable(members, format)
    ensures EntriesText(LaidEntries(members, pretty, level, format)) ==
            Members(members, pretty, level + 1, format) + (Break(pretty, level) + [0x7D])
    decreases members, 0
  {
    hide Dump, Laid, Text, Break, NewLine, MemberText, LaidEntry, EntryText;
    LaidText(members[0].value, pretty, level + 1, format);
    LaidEntryText(members[0], |members| == 1, pretty, level, format);
    var b, d := Break(pretty, level + 1), MemberText(members[0], pretty, level + 1, format);
    var close := Break(pretty, level) + [0x7D];
    var r := LaidEntries(members, pretty, level, format);
    if |members| == 1 {
      ItemGrouping(b, d, Break(pretty, level), [0x7D], []);
    } else {
      assert r[1..] == LaidEntries(members[1..], pretty, level, format);
      LaidEntriesText(members[1..], pretty, level, format);
      ItemGrouping(b, d, close, [0x2C], Members(members[1..], pretty, level + 1, format));
    }
  }

  /** An integer below 9.2e18 is printed in decimal, and every other number as the stream prints it. */
  lemma NumbersPrinted(n: real, pretty: bool, level: nat, format: NumberFormat)
    ensures forall i: int | n == i as real && -9_200_000_000_000_000_000 < i < 9_200_000_000_000_000_000 ::
              Dump(Number(n), pretty, level, format) == IntegerNumeral(i).Text()
    ensures n <= -9_200_000_000_000_000_000.0 || n >= 9_200_000_000_000_000_000.0 || n != n.Floor as real ==>
              Dump(Number(n), pretty, level, format) == format(n)
  {
    hide Decimal, IntegerNumeral, Numeral.Text;
    IntegerText(n.Floor);
  }

  // ----- What it means -----

  lemma {:induction false} LaidMeaning(v: Value, pretty: bool, level: nat, format: NumberFormat)
    requires Printable(v, format)
    ensures Meaning(Laid(v, pretty, level, format)) == Reread(v, format)
    decreases v, 1
  {
    hide NumberText, StrToD, NumberShaped, Numeral.Text, Numeral.Value;
    match v
    case Number(n) => NumeralReads(NumeralFor(NumberText(n, format)));
    case String(s) => PrintedIsSpelled(s);
    case Array(items) => LaidItemsMeaning(items, pretty, level, format);
    case Object(members) => LaidEntriesMeaning(members, pretty, level, format);
    case _ =>
  }

  lemma {:induction false} LaidItemsMeaning(items: seq<Value>, pretty: bool, level: nat, format: NumberFormat)
    requires AllPrintable(items, format)
    ensures ItemsMeaning(LaidItems(items, pretty, level, format)) == RereadAll(items, format)
    decreases items, 0
  {
    hide Laid, Meaning, Reread, NewLine;
    if items != [] {
      LaidMeaning(items[0], pretty, level + 1, format);
      LaidItemsMeaning(items[1..], pretty, level, format);
      assert LaidItems(items, pretty, level, format)[1..] == LaidItems(items[1..], pretty, level, format);
    }
  }

  lemma {:induction false} LaidEntriesMeaning(members: seq<Member>, pretty: bool, level: nat, format: NumberFormat)
    requires MembersPrintable(members, format)
    ensures EntriesMeaning(LaidEntries(members, pretty, level, format)) == RereadMembers(members, format)
    decreases members, 0
  {
    hide Laid, Meaning, Reread, NewLine, Meant;
    if members != [] {
      PrintedIsSpelled(members[0].key);
      LaidMeaning(members[0].value, pretty, level + 1, format);
      LaidEntriesMeaning(members[1..], pretty, level, format);
      assert LaidEntries(members, pretty, level, format)[1..] == LaidEntries(members[1..], pretty, level, format);
    }
  }

  // ----- The round trip -----

  /** What is printed at a position is parsed from it, up to its last byte. */
  lemma ValueParses(s: bytes, p: nat, v: Value, pretty: bool, indent: nat, format: NumberFormat)
    requires Printable(v, format) && At(s, p, Dump(v, pretty, indent, format))
    requires Terminates(s, p + |Dump(v, pretty, indent, format)|)
    ensures ParseValue(s, p) == Ok(Reread(v, format), p + |Dump(v, pretty, indent, format)|)
  {
    hide Dump, Laid, Text, Meaning, Reread, Terminates, ParseValue;
    LaidText(v, pretty, indent, format);
    LaidMeaning(v, pretty, indent, format);
    DocReads(s, p, Laid(v, pretty, indent, format));
  }

  /** Parsing what was printed gives the value back with each number as its text denotes it. */
  lemma PrintedParses(v: Value, pretty: bool, format: NumberFormat)
    requires Printable(v, format)
    ensures ParseText(Dump(v, pretty, 0, format)) == Ok(Reread(v, format), |Dump(v, pretty, 0, format)|)
  {
    hide Dump, Laid, Text, Meaning, Reread, ParseText;
    LaidText(v, pretty, 0, format);
    LaidMeaning(v, pretty, 0, format);
    NoBlank();
    DocText([], Laid(v, pretty, 0, format), []);
    assert [] + Dump(v, pretty, 0, format) + [] == Dump(v, pretty, 0, format);
  }

  /** A number that keeps its value: any integer the printer prints itself, or one the stream prints exactly. */
  predicate Exact(n: real, format: NumberFormat) {
    IsInteger(n) || StrToD(format(n)) == n
  }

  predicate AllExact(v: Value, format: NumberFormat)
    decreases v, 1
  {
    match v
    case Number(n) => Exact(n, format)
    case Array(items) => ElementsExact(items, format)
    case Object(members) => MembersExact(members, format)
    case _ => true
  }

  predicate ElementsExact(items: seq<Value>, format: NumberFormat)
    decreases items, 0
  {
    items == [] || (AllExact(items[0], format) && ElementsExact(items[1..], format))
  }

  predicate MembersExact(members: seq<Member>, format: NumberFormat)
    decreases members, 0
  {
    members == [] || (AllExact(members[0].value, format) && MembersExact(members[1..], format))
  }

  /** Only numbers can come back changed, and only those that are not exact. */
  lemma {:induction false} RereadIsSame(v: Value, format: NumberFormat)
    ensures Reread(v, format) == v <==> AllExact(v, format)
    decreases v, 1
  {
    hide StrToD;
    match v
    case Number(n) =>
      if IsInteger(n) {
        DecimalReads(n.Floor);
      }
    case Array(items) => RereadAllIsSame(items, format);
    case Object(members) => RereadMembersIsSame(members, format);
    case _ =>
  }

  lemma {:induction false} RereadAllIsSame(items: seq<Value>, format: NumberFormat)
    ensures RereadAll(items, format) == items <==> ElementsExact(items, format)
    decreases items, 0
  {
    if items != [] {
      var r := RereadAll(items, format);
      RereadIsSame(items[0], format);
      RereadAllIsSame(items[1..], format);
      assert r[0] == Reread(items[0], format) && r[1..] == RereadAll(items[1..], format);
      assert items == [items[0]] + items[1..];
    }
  }

  lemma {:induction false} RereadMembersIsSame(members: seq<Member>, format: NumberFormat)
    ensures RereadMembers(members, format) == members <==> MembersExact(members, format)
    decreases members, 0
  {
    if members != [] {
      var r := RereadMembers(members, format);
      RereadIsSame(members[0].value, format);
      RereadMembersIsSame(members[1..], format);
      assert r[0] == RereadMember(members[0], format) && r[1..] == RereadMembers(members[1..], format);
      assert members == [members[0]] + members[1..];
    }
  }

  /**
    For every value, whatever its strings and however deep it nests, and in both layouts, printing and
    parsing always succeeds and gives the value back exactly when all its numbers are exact.
    */
  lemma RoundTrip(v: Value, pretty: bool, format: NumberFormat)
    requires Printable(v, format)
    ensures ParseText(Dump(v, pretty, 0, format)).Ok?
    ensures ParseText(Dump(v, pretty, 0, format)).value == v <==> AllExact(v, format)
  {
    hide ParseText, Dump, Reread, AllExact, Printable;
    PrintedParses(v, pretty, format);
    RereadIsSame(v, format);
  }

  /** A value all of whose numbers are integers below the printer's limit. */
  predicate Integral(v: Value)
    decreases v, 1
  {
    match v
    case Number(n) => IsInteger(n)
    case Array(items) => ElementsIntegral(items)
    case Object(members) => MembersIntegral(members)
    case _ => true
  }

  predicate ElementsIntegral(items: seq<Value>)
    decreases items, 0
  {
    items == [] || (Integral(items[0]) && ElementsIntegral(items[1..]))
  }

  predicate MembersIntegral(members: seq<Member>)
    decreases members, 0
  {
    members == [] || (Integral(members[0].value) && MembersIntegral(members[1..]))
  }

  lemma {:induction false} IntegralIsExact(v: Value, format: NumberFormat)
    requires Integral(v)
    ensures Printable(v, format) && AllExact(v, format)
    decreases v, 1
  {
    hide StrToD, NumberShaped;
    match v
    case Number(n) => DecimalReads(n.Floor);
    case Array(items) => ElementsIntegralExact(items, format);
    case Object(members) => MembersIntegralExact(members, format);
    case _ =>
  }

  lemma {:induction false} ElementsIntegralExact(items: seq<Value>, format: NumberFormat)
    requires ElementsIntegral(items)
    ensures AllPrintable(items, format) && ElementsExact(items, format)
    decreases items, 0
  {
    if items != [] {
      IntegralIsExact(items[0], format);
      ElementsIntegralExact(items[1..], format);
    }
  }

  lemma {:induction false} MembersIntegralExact(members: seq<Member>, format: NumberFormat)
    requires MembersIntegral(members)
    ensures MembersPrintable(members, format) && MembersExact(members, format)
    decreases members, 0
  {
    if members != [] {
      IntegralIsExact(members[0].value, format);
      MembersIntegralExact(members[1..], format);
    }
  }

  /** With integer numbers the round trip always holds, however the stream prints other numbers. */
  lemma IntegralRoundTrip(v: Value, pretty: bool, format: NumberFormat)
    requires Integral(v)
    ensures ParseText(Dump(v, pretty, 0, format)) == Ok(v, |Dump(v, pretty, 0, format)|)
  {
    hide ParseText, Dump, AllExact, Printable, Reread, Integral;
    IntegralIsExact(v, format);
    PrintedParses(v, pretty, format);
    RereadIsSame(v, format);
  }

  /** So no two such values print alike, in any mixture of the two layouts. */
  lemma DumpIsInjective(v: Value, w: Value, pretty: bool, pretty': bool, format: NumberFormat)
    requires Integral(v) && Integral(w)
    requires Dump(v, pretty, 0, format) == Dump(w, pretty', 0, format)
    ensures v == w
  {
    hide ParseText, Dump;
    IntegralRoundTrip(v, pretty, format);
    IntegralRoundTrip(w, pretty', format);
  }
}
