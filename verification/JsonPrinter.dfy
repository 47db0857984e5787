/** JSON values and their printer (src/json.cpp, RFC 8259), in both layouts. Strings are arbitrary bytes. */
module JsonPrinter {
  import opened Bytes

  datatype Value =
    | Null
    | Bool(b: bool)
    | Number(n: real)
    | String(s: bytes)
    | Array(items: seq<Value>)
    | Object(members: seq<Member>)

  datatype Member = Member(key: bytes, value: Value)

  /** How the standard library prints a number that is not a small integer. */
  type NumberFormat = real -> bytes

  const INTEGER_LIMIT: real := 9200000000000000000.0

  const NULL_TEXT: bytes := [0x6E, 0x75, 0x6C, 0x6C]
  const TRUE_TEXT: bytes := [0x74, 0x72, 0x75, 0x65]
  const FALSE_TEXT: bytes := [0x66, 0x61, 0x6C, 0x73, 0x65]

  const QUOTE: byte := 0x22
  const BACKSLASH: byte := 0x5C
  const COMMA: byte := 0x2C
  const COLON: byte := 0x3A
  const MINUS: byte := 0x2D
  const DOT: byte := 0x2E
  const OPEN_BRACKET: byte := 0x5B
  const CLOSE_BRACKET: byte := 0x5D
  const OPEN_BRACE: byte := 0x7B
  const CLOSE_BRACE: byte := 0x7D

  // ----- Strings -----

  function HexDigit(d: nat): byte
    requires d < 16
  {
    if d < 10 then 0x30 + d else 0x61 + d - 10
  }

  function EscapeByte(c: byte): bytes {
    if c == QUOTE then [BACKSLASH, QUOTE]
    else if c == BACKSLASH then [BACKSLASH, BACKSLASH]
    else if c == 8 then [BACKSLASH, 0x62]
    else if c == 12 then [BACKSLASH, 0x66]
    else if c == 10 then [BACKSLASH, 0x6E]
    else if c == 13 then [BACKSLASH, 0x72]
    else if c == 9 then [BACKSLASH, 0x74]
    else if c < 0x20 then [BACKSLASH, 0x75, 0x30, 0x30, HexDigit(c / 16), HexDigit(c % 16)]
    else [c]
  }

  function Escape(s: bytes): bytes {
    if s == [] then [] else EscapeByte(s[0]) + Escape(s[1..])
  }

  lemma {:induction false} EscapeAppend(s: bytes, c: byte)
    ensures Escape(s + [c]) == Escape(s) + EscapeByte(c)
  {
    hide EscapeByte;
    if s == [] {
      assert (s + [c])[1..] == [];
    } else {
      assert (s + [c])[1..] == s[1..] + [c];
      EscapeAppend(s[1..], c);
    }
  }

  /** `escapeString` */
  method EscapeString(s: bytes) returns (out: bytes)
    ensures out == Escape(s)
  {
    hide EscapeByte;
    out := [];
    for i := 0 to |s|
      invariant out == Escape(s[..i])
    {
      EscapeAppend(s[..i], s[i]);
      assert s[..i + 1] == s[..i] + [s[i]];
      out := out + EscapeByte(s[i]);
    }
    assert s[..|s|] == s;
  }

  function Quoted(s: bytes): bytes {
    [QUOTE] + Escape(s) + [QUOTE]
  }

  // ----- Numbers -----

  function Digits(n: nat): (d: bytes)
    ensures d != []
  {
    if n < 10 then [0x30 + n] else Digits(n / 10) + [0x30 + n % 10]
  }

  /** `std::to_string` of an integer. */
  function Decimal(i: int): bytes {
    if i < 0 then [MINUS] + Digits(-i) else Digits(i)
  }

  predicate IsInteger(n: real) {
    n == n.Floor as real && -INTEGER_LIMIT < n < INTEGER_LIMIT
  }

  function NumberText(n: real, format: NumberFormat): bytes {
    if IsInteger(n) then Decimal(n.Floor) else format(n)
  }

  // ----- Values -----

  function Spaces(n: nat): bytes {
    seq(n, _ => 0x20)
  }

  /** A line break and the indentation of a level, in the pretty layout only. */
  function Break(pretty: bool, level: nat): bytes {
    if pretty then [0x0A] + Spaces(level * 2) else []
  }

  function Gap(pretty: bool): bytes {
    if pretty then [0x20] else []
  }

  function Dump(v: Value, pretty: bool, indent: nat, format: NumberFormat): bytes
    decreases v, 1
  {
    match v
    case Null => NULL_TEXT
    case Bool(b) => if b then TRUE_TEXT else FALSE_TEXT
    case Number(n) => NumberText(n, format)
    case String(s) => Quoted(s)
    case Array(items) =>
      if items == [] then [OPEN_BRACKET, CLOSE_BRACKET]
      else [OPEN_BRACKET] + Elements(items, pretty, indent + 1, format) + Break(pretty, indent) + [CLOSE_BRACKET]
    case Object(members) =>
      if members == [] then [OPEN_BRACE, CLOSE_BRACE]
      else [OPEN_BRACE] + Members(members, pretty, indent + 1, format) + Break(pretty, indent) + [CLOSE_BRACE]
  }

  function Elements(items: seq<Value>, pretty: bool, level: nat, format: NumberFormat): bytes
    decreases items, 0
  {
    if items == [] then []
    else Break(pretty, level) + Dump(items[0], pretty, level, format)
         + if |items| == 1 then [] else [COMMA] + Elements(items[1..], pretty, level, format)
  }

  function Members(members: seq<Member>, pretty: bool, level: nat, format: NumberFormat): bytes
    decreases members, 0
  {
    if members == [] then []
    else Break(pretty, level) + MemberText(members[0], pretty, level, format)
         + if |members| == 1 then [] else [COMMA] + Members(members[1..], pretty, level, format)
  }

  function MemberText(m: Member, pretty: bool, level: nat, format: NumberFormat): bytes
    decreases m, 2
  {
    Quoted(m.key) + [COLON] + Gap(pretty) + Dump(m.value, pretty, level, format)
  }

  function Separator(first: bool): bytes {
    if first then [] else [COMMA]
  }

  /** Appending behind a separator, regrouped. */
  lemma Splice(x: bytes, c: bytes, r: bytes, sep: bytes, b: bytes, v: bytes)
    ensures x + (c + (r + sep + b + v)) == (x + (c + r)) + sep + b + v
    ensures x + (c + ([] + [] + b + v)) == (x + []) + c + b + v
  {
  }

  lemma {:induction false} ElementsAppend(items: seq<Value>, v: Value, pretty: bool, level: nat, format: NumberFormat)
    ensures Elements(items + [v], pretty, level, format)
         == Elements(items, pretty, level, format) + Separator(items == []) + Break(pretty, level)
            + Dump(v, pretty, level, format)
    decreases |items|
  {
    hide Dump, Break;
    var all := items + [v];
    if items == [] {
      assert all == [v];
    } else {
      assert all[1..] == items[1..] + [v] && all[0] == items[0];
      ElementsAppend(items[1..], v, pretty, level, format);
      Splice(Break(pretty, level) + Dump(items[0], pretty, level, format), [COMMA],
             Elements(items[1..], pretty, level, format), [COMMA], Break(pretty, level),
             Dump(v, pretty, level, format));
    }
  }

  lemma {:induction false} MembersAppend(
    members: seq<Member>, m: Member, pretty: bool, level: nat, format: NumberFormat)
    ensures Members(members + [m], pretty, level, format)
         == Members(members, pretty, level, format) + Separator(members == []) + Break(pretty, level)
            + MemberText(m, pretty, level, format)
    decreases |members|
  {
    hide MemberText, Break;
    var all := members + [m];
    if members == [] {
      assert all == [m];
    } else {
      assert all[1..] == members[1..] + [m] && all[0] == members[0];
      MembersAppend(members[1..], m, pretty, level, format);
      Splice(Break(pretty, level) + MemberText(members[0], pretty, level, format), [COMMA],
             Members(members[1..], pretty, level, format), [COMMA], Break(pretty, level),
             MemberText(m, pretty, level, format));
    }
  }

  /** `dumpValue`: appends the text of a value to the output. */
  method DumpValue(v: Value, out: bytes, pretty: bool, indent: nat, format: NumberFormat) returns (more: bytes)
    ensures more == out + Dump(v, pretty, indent, format)
    decreases v, 1
  {
    match v
    case Null => more := out + NULL_TEXT;
    case Bool(b) => more := out + if b then TRUE_TEXT else FALSE_TEXT;
    case Number(n) => more := out + NumberText(n, format);
    case String(s) =>
      var escaped := EscapeString(s);
      more := out + [QUOTE] + escaped + [QUOTE];
      assert more == out + Quoted(s);
    case Array(items) =>
      if items == [] {
        more := out + [OPEN_BRACKET, CLOSE_BRACKET];
      } else {
        more := DumpElements(items, out + [OPEN_BRACKET], pretty, indent + 1, format);
        more := more + Break(pretty, indent) + [CLOSE_BRACKET];
        Bracketed(out, [OPEN_BRACKET], Elements(items, pretty, indent + 1, format), Break(pretty, indent),
                  [CLOSE_BRACKET]);
      }
    case Object(members) =>
      if members == [] {
        more := out + [OPEN_BRACE, CLOSE_BRACE];
      } else {
        more := DumpMembers(members, out + [OPEN_BRACE], pretty, indent + 1, format);
        more := more + Break(pretty, indent) + [CLOSE_BRACE];
        Bracketed(out, [OPEN_BRACE], Members(members, pretty, indent + 1, format), Break(pretty, indent),
                  [CLOSE_BRACE]);
      }
  }

  lemma Bracketed(out: bytes, open: bytes, inner: bytes, gap: bytes, close: bytes)
    ensures out + open + inner + gap + close == out + (open + inner + gap + close)
  {
  }

  lemma Appended(a: bytes, b: bytes, c: bytes, d: bytes, e: bytes)
    ensures a + b + c + d + e == a + (b + c + d + e)
  {
  }

  method DumpElements(items: seq<Value>, out: bytes, pretty: bool, level: nat, format: NumberFormat)
    returns (more: bytes)
    ensures more == out + Elements(items, pretty, level, format)
    decreases items, 0
  {
    hide Dump, Break;
    more := out;
    for i := 0 to |items|
      invariant more == out + Elements(items[..i], pretty, level, format)
    {
      ElementsAppend(items[..i], items[i], pretty, level, format);
      assert items[..i + 1] == items[..i] + [items[i]];
      assert items[..i] == [] <==> i == 0;
      Appended(out, Elements(items[..i], pretty, level, format), Separator(i == 0), Break(pretty, level),
               Dump(items[i], pretty, level, format));
      if i > 0 {
        more := more + [COMMA];
      }
      more := more + Break(pretty, level);
      more := DumpValue(items[i], more, pretty, level, format);
    }
    assert items[..|items|] == items;
  }

  method DumpMember(m: Member, out: bytes, pretty: bool, level: nat, format: NumberFormat) returns (more: bytes)
    ensures more == out + MemberText(m, pretty, level, format)
    decreases m, 2
  {
    hide Dump, Escape;
    var escaped := EscapeString(m.key);
    var head := [QUOTE] + escaped + [QUOTE] + [COLON];
    if pretty {
      head := head + [0x20];
    }
    assert head == Quoted(m.key) + [COLON] + Gap(pretty);
    more := DumpValue(m.value, out + head, pretty, level, format);
    Associative(out, head, Dump(m.value, pretty, level, format));
  }

  lemma Associative(a: bytes, b: bytes, c: bytes)
    ensures (a + b) + c == a + (b + c)
  {
  }

  method DumpMembers(members: seq<Member>, out: bytes, pretty: bool, level: nat, format: NumberFormat)
    returns (more: bytes)
    ensures more == out + Members(members, pretty, level, format)
    decreases members, 0
  {
    hide MemberText, Break;
    more := out;
    for i := 0 to |members|
      invariant more == out + Members(members[..i], pretty, level, format)
    {
      MembersAppend(members[..i], members[i], pretty, level, format);
      assert members[..i + 1] == members[..i] + [members[i]];
      assert members[..i] == [] <==> i == 0;
      Appended(out, Members(members[..i], pretty, level, format), Separator(i == 0), Break(pretty, level),
               MemberText(members[i], pretty, level, format));
      if i > 0 {
        more := more + [COMMA];
      }
      more := more + Break(pretty, level);
      more := DumpMember(members[i], more, pretty, level, format);
    }
    assert members[..|members|] == members;
  }
}
