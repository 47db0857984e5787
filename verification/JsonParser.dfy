/**
  The recursive-descent parser of src/json.cpp. What each method does is given first as a function of
  the text and a position; the class then does it by moving `pos`.
  */
module JsonParser {
  import opened Bytes
  import opened JsonPrinter
  import Utf8

  datatype Error =
    | UnexpectedEnd
    | UnexpectedCharacter
    | InvalidLiteral
    | BadNumber
    | ExpectedString
    | BadEscape
    | BadUnicodeEscape
    | MissingLowSurrogate
    | BadLowSurrogate
    | BadEscapeCharacter
    | ControlCharacter
    | UnterminatedString
    | ExpectedCommaOrBracket
    | ExpectedKey
    | ExpectedColon
    | ExpectedCommaOrBrace
    | TrailingData

  /** A value and the position after it, or an error and the position where it was noticed. */
  datatype Parsed<+T> = Ok(value: T, next: nat) | Fail(error: Error, at: nat)
  {
    function End(): nat {
      if Ok? then next else at
    }
  }

  /** A result leaves the position inside the text; success moves it strictly forward. */
  predicate Advances<T>(s: bytes, p: nat, r: Parsed<T>) {
    p <= r.End() <= |s| && (r.Ok? ==> p < r.next)
  }

  // ----- White space and literals -----

  predicate IsSpace(c: byte) {
    c == 0x20 || c == 0x09 || c == 0x0A || c == 0x0D
  }

  function SkipWs(s: bytes, p: nat): (q: nat)
    requires p <= |s|
    ensures p <= q <= |s|
    decreases |s| - p
  {
    if p < |s| && IsSpace(s[p]) then SkipWs(s, p + 1) else p
  }

  function ParseLiteral(s: bytes, p: nat, text: bytes, value: Value): Parsed<Value> {
    if At(s, p, text) then Ok(value, p + |text|) else Fail(InvalidLiteral, p)
  }

  // ----- Numbers -----

  predicate IsDigit(c: byte) {
    0x30 <= c <= 0x39
  }

  function DigitsEnd(s: bytes, p: nat): (q: nat)
    requires p <= |s|
    ensures p <= q <= |s|
    ensures forall i | p <= i < q :: IsDigit(s[i])
    decreases |s| - p
  {
    if p < |s| && IsDigit(s[p]) then DigitsEnd(s, p + 1) else p
  }

  function FractionEnd(s: bytes, p: nat): (q: nat)
    requires p <= |s|
    ensures p <= q <= |s|
  {
    if p < |s| && s[p] == DOT then DigitsEnd(s, p + 1) else p
  }

  predicate IsE(c: byte) {
    c == 0x65 || c == 0x45
  }

  predicate IsSign(c: byte) {
    c == 0x2B || c == MINUS
  }

  function ExponentEnd(s: bytes, p: nat): (q: nat)
    requires p <= |s|
    ensures p <= q <= |s|
  {
    if p < |s| && IsE(s[p]) then
      if p + 1 < |s| && IsSign(s[p + 1]) then DigitsEnd(s, p + 2) else DigitsEnd(s, p + 1)
    else p
  }

  function DigitValue(c: byte): nat
    requires IsDigit(c)
  {
    c as int - 0x30
  }

  function DigitsValue(d: bytes): nat
    requires forall i | 0 <= i < |d| :: IsDigit(d[i])
  {
    if d == [] then 0 else DigitsValue(d[..|d| - 1]) * 10 + DigitValue(d[|d| - 1])
  }

  function Pow10(e: int): real
    decreases if e < 0 then -e else e
  {
    if e == 0 then 1.0 else if e > 0 then 10.0 * Pow10(e - 1) else Pow10(e + 1) / 10.0
  }

  /** The exponent `strtod` takes: none unless a digit follows the letter and the sign. */
  function ExponentValue(s: bytes, p: nat): int
    requires p <= |s|
  {
    if p < |s| && IsE(s[p]) then
      var q := if p + 1 < |s| && IsSign(s[p + 1]) then p + 2 else p + 1;
      var e: int := DigitsValue(s[q..DigitsEnd(s, q)]);
      if s[q - 1] == MINUS then -e else e
    else 0
  }

  /** `strtod` on a scanned number: 0 when there is no digit before the exponent. */
  function StrToD(s: bytes): real {
    var p := if s != [] && s[0] == MINUS then 1 else 0;
    var q := DigitsEnd(s, p);
    var f := FractionEnd(s, q);
    var whole := s[p..q];
    var fraction := if f > q then s[q + 1..f] else [];
    var mantissa := DigitsValue(whole + fraction) as real;
    var value := mantissa * Pow10(ExponentValue(s, f) - |fraction|);
    if whole + fraction == [] then 0.0 else if p == 1 then -value else value
  }

  function ParseNumber(s: bytes, p: nat): (r: Parsed<Value>)
    requires p < |s| && (s[p] == MINUS || IsDigit(s[p]))
    ensures Advances(s, p, r)
  {
    var start := if s[p] == MINUS then p + 1 else p;
    if start >= |s| then Fail(BadNumber, start)
    else
      var end := ExponentEnd(s, FractionEnd(s, DigitsEnd(s, start)));
      var num := s[p..end];
      if num == [] || num == [MINUS] then Fail(BadNumber, end) else Ok(Number(StrToD(num)), end)
  }

  // ----- Strings -----

  function HexValue(c: byte): int {
    if 0x30 <= c <= 0x39 then c as int - 0x30
    else if 0x61 <= c <= 0x66 then c as int - 0x61 + 10
    else if 0x41 <= c <= 0x46 then c as int - 0x41 + 10
    else -1
  }

  predicate AllHex(h: bytes) {
    forall i | 0 <= i < |h| :: HexValue(h[i]) >= 0
  }

  function HexNumber(h: bytes): (v: nat)
    requires AllHex(h)
    ensures |h| == 1 ==> v < 0x10
    ensures |h| == 2 ==> v < 0x100
    ensures |h| == 3 ==> v < 0x1000
    ensures |h| == 4 ==> v < 0x10000
  {
    if h == [] then 0 else HexNumber(h[..|h| - 1]) * 16 + HexValue(h[|h| - 1])
  }

  /** How many of the bytes are hex digits before the first that is not. */
  function HexRun(h: bytes): (k: nat)
    ensures k <= |h| && AllHex(h[..k])
    ensures k < |h| ==> HexValue(h[k]) < 0
  {
    if h == [] || HexValue(h[0]) < 0 then 0
    else
      var k := HexRun(h[1..]);
      assert h[..k + 1] == [h[0]] + h[1..][..k];
      k + 1
  }

  lemma HexRunIs(h: bytes, k: nat)
    requires k < |h| && AllHex(h[..k]) && HexValue(h[k]) < 0
    ensures HexRun(h) == k
  {
    var r := HexRun(h);
    assert forall i | 0 <= i < k :: h[..k][i] == h[i];
    assert forall i | 0 <= i < r :: h[..r][i] == h[i];
  }

  /** Four hex digits; a bad one has been consumed by the time it is noticed. */
  function ReadHex4(s: bytes, p: nat): (r: Parsed<nat>)
    ensures p <= |s| ==> p <= r.End() <= |s|
    ensures r.Ok? ==> r.next == p + 4 && r.value <= 0xFFFF
  {
    if p + 4 > |s| then Fail(BadUnicodeEscape, p)
    else
      var h := s[p..p + 4];
      var k := HexRun(h);
      if k < 4 then Fail(BadUnicodeEscape, p + k + 1)
      else
        assert h[..4] == h;
        Ok(HexNumber(h), p + 4)
  }

  function SimpleEscape(e: byte): Parsed<byte> {
    if e == QUOTE || e == BACKSLASH || e == 0x2F then Ok(e, 0)
    else if e == 0x62 then Ok(8, 0)
    else if e == 0x66 then Ok(12, 0)
    else if e == 0x6E then Ok(10, 0)
    else if e == 0x72 then Ok(13, 0)
    else if e == 0x74 then Ok(9, 0)
    else Fail(BadEscapeCharacter, 0)
  }

  /** The code point of a `\\u` escape whose digits start at `p`: one unit, or a surrogate pair. */
  function UnicodeEscape(s: bytes, p: nat): (r: Parsed<nat>)
    requires p <= |s|
    ensures p <= r.End() <= |s| && (r.Ok? ==> p < r.next && r.value <= 0x10FFFF)
  {
    var high := ReadHex4(s, p);
    if high.Fail? || !(0xD800 <= high.value <= 0xDBFF) then high
    else if high.next + 1 >= |s| || s[high.next] != BACKSLASH || s[high.next + 1] != 0x75 then
      Fail(MissingLowSurrogate, high.next)
    else
      var low := ReadHex4(s, high.next + 2);
      if low.Fail? then Fail(BadLowSurrogate, low.at)
      else if !(0xDC00 <= low.value <= 0xDFFF) then Fail(BadLowSurrogate, low.next)
      else Ok(0x10000 + (high.value - 0xD800) * 1024 + (low.value - 0xDC00), low.next)
  }

  /** One character of a string body: the bytes it stands for and the position after it. */
  function StringChar(s: bytes, p: nat): (r: Parsed<bytes>)
    requires p < |s| && s[p] != QUOTE
    ensures Advances(s, p, r)
  {
    if s[p] != BACKSLASH then
      if s[p] < 0x20 then Fail(ControlCharacter, p + 1) else Ok([s[p]], p + 1)
    else if p + 1 >= |s| then Fail(BadEscape, p + 1)
    else if s[p + 1] == 0x75 then
      var cp := UnicodeEscape(s, p + 2);
      if cp.Fail? then Fail(cp.error, cp.at) else Ok(Utf8.Encode(cp.value), cp.next)
    else
      var e := SimpleEscape(s[p + 1]);
      if e.Fail? then Fail(e.error, p + 2) else Ok([e.value], p + 2)
  }

  function StringBody(s: bytes, p: nat, value: bytes): (r: Parsed<bytes>)
    requires p <= |s|
    ensures Advances(s, p, r)
    decreases |s| - p
  {
    if p >= |s| then Fail(UnterminatedString, p)
    else if s[p] == QUOTE then Ok(value, p + 1)
    else
      var c := StringChar(s, p);
      if c.Fail? then c else StringBody(s, c.next, value + c.value)
  }

  function ParseString(s: bytes, p: nat): (r: Parsed<bytes>)
    requires p <= |s|
    ensures Advances(s, p, r)
  {
    if p < |s| && s[p] == QUOTE then StringBody(s, p + 1, []) else Fail(ExpectedString, p)
  }

  // ----- Values -----

  function ParseValue(s: bytes, p: nat): (r: Parsed<Value>)
    requires p <= |s|
    ensures Advances(s, p, r)
    decreases |s| - p, 1
  {
    var q := SkipWs(s, p);
    if q >= |s| then Fail(UnexpectedEnd, q)
    else if s[q] == OPEN_BRACE then ParseObject(s, q)
    else if s[q] == OPEN_BRACKET then ParseArray(s, q)
    else if s[q] == QUOTE then
      var str := ParseString(s, q);
      if str.Fail? then Fail(str.error, str.at) else Ok(String(str.value), str.next)
    else if s[q] == 0x74 then ParseLiteral(s, q, TRUE_TEXT, Bool(true))
    else if s[q] == 0x66 then ParseLiteral(s, q, FALSE_TEXT, Bool(false))
    else if s[q] == 0x6E then ParseLiteral(s, q, NULL_TEXT, Null)
    else if s[q] == MINUS || IsDigit(s[q]) then ParseNumber(s, q)
    else Fail(UnexpectedCharacter, q)
  }

  function ParseArray(s: bytes, p: nat): (r: Parsed<Value>)
    requires p < |s| && s[p] == OPEN_BRACKET
    ensures Advances(s, p, r)
    decreases |s| - p, 0
  {
    var q := SkipWs(s, p + 1);
    if q < |s| && s[q] == CLOSE_BRACKET then Ok(Array([]), q + 1) else ParseElements(s, q, [])
  }

  /** The element loop, with the elements so far. */
  function ParseElements(s: bytes, p: nat, items: seq<Value>): (r: Parsed<Value>)
    requires p <= |s|
    ensures Advances(s, p, r)
    decreases |s| - p, 2
  {
    var v := ParseValue(s, SkipWs(s, p));
    if v.Fail? then v
    else
      var q := SkipWs(s, v.next);
      if q < |s| && s[q] == CLOSE_BRACKET then Ok(Array(items + [v.value]), q + 1)
      else if q < |s| && s[q] == COMMA then ParseElements(s, q + 1, items + [v.value])
      else Fail(ExpectedCommaOrBracket, q)
  }

  function ParseObject(s: bytes, p: nat): (r: Parsed<Value>)
    requires p < |s| && s[p] == OPEN_BRACE
    ensures Advances(s, p, r)
    decreases |s| - p, 0
  {
    var q := SkipWs(s, p + 1);
    if q < |s| && s[q] == CLOSE_BRACE then Ok(Object([]), q + 1) else ParseMembers(s, q, [])
  }

  function ParseMember(s: bytes, p: nat): (r: Parsed<Member>)
    requires p <= |s|
    ensures Advances(s, p, r)
    decreases |s| - p, 2
  {
    var key := ParseString(s, SkipWs(s, p));
    if key.Fail? then Fail(ExpectedKey, key.at)
    else
      var q := SkipWs(s, key.next);
      if q >= |s| || s[q] != COLON then Fail(ExpectedColon, q)
      else
        var v := ParseValue(s, SkipWs(s, q + 1));
        if v.Fail? then Fail(v.error, v.at) else Ok(Member(key.value, v.value), v.next)
  }

  /** The member loop, with the members so far; a repeated key is kept. */
  function ParseMembers(s: bytes, p: nat, members: seq<Member>): (r: Parsed<Value>)
    requires p <= |s|
    ensures Advances(s, p, r)
    decreases |s| - p, 3
  {
    var m := ParseMember(s, p);
    if m.Fail? then Fail(m.error, m.at)
    else
      var q := SkipWs(s, m.next);
      if q < |s| && s[q] == CLOSE_BRACE then Ok(Object(members + [m.value]), q + 1)
      else if q < |s| && s[q] == COMMA then ParseMembers(s, q + 1, members + [m.value])
      else Fail(ExpectedCommaOrBrace, q)
  }

  /** A complete document: one value, and nothing but white space after it. */
  function ParseText(s: bytes): Parsed<Value> {
    var v := ParseValue(s, 0);
    if v.Fail? then v
    else
      var q := SkipWs(s, v.next);
      if q < |s| then Fail(TrailingData, q) else Ok(v.value, q)
  }

  // ----- The parser object -----

  class Parser {
    const s: bytes
    var pos: nat

    constructor (s: bytes)
      ensures this.s == s && pos == 0
    {
      this.s, pos := s, 0;
    }

    method SkipSpace()
      requires pos <= |s|
      modifies this
      ensures pos == SkipWs(s, old(pos))
    {
      while pos < |s| && (s[pos] == 0x20 || s[pos] == 0x09 || s[pos] == 0x0A || s[pos] == 0x0D)
        invariant pos <= |s| && SkipWs(s, pos) == SkipWs(s, old(pos))
        decreases |s| - pos
      {
        pos := pos + 1;
      }
    }

    method Expect(c: byte) returns (ok: bool)
      requires pos <= |s|
      modifies this
      ensures ok == (old(pos) < |s| && s[old(pos)] == c)
      ensures pos == if ok then old(pos) + 1 else old(pos)
    {
      ok := pos < |s| && s[pos] == c;
      if ok {
        pos := pos + 1;
      }
    }

    method TakeLiteral(text: bytes, value: Value) returns (r: Parsed<Value>)
      requires pos <= |s|
      modifies this
      ensures r == ParseLiteral(s, old(pos), text, value) && pos == r.End()
    {
      if pos + |text| > |s| || s[pos..pos + |text|] != text {
        return Fail(InvalidLiteral, pos);
      }
      pos := pos + |text|;
      r := Ok(value, pos);
    }

    method SkipDigits()
      requires pos <= |s|
      modifies this
      ensures pos == DigitsEnd(s, old(pos))
    {
      while pos < |s| && 0x30 <= s[pos] <= 0x39
        invariant pos <= |s| && DigitsEnd(s, pos) == DigitsEnd(s, old(pos))
        decreases |s| - pos
      {
        pos := pos + 1;
      }
    }

    method SkipFraction()
      requires pos <= |s|
      modifies this
      ensures pos == FractionEnd(s, old(pos))
    {
      if pos < |s| && s[pos] == DOT {
        pos := pos + 1;
        SkipDigits();
      }
    }

    method SkipExponent()
      requires pos <= |s|
      modifies this
      ensures pos == ExponentEnd(s, old(pos))
    {
      if pos < |s| && (s[pos] == 0x65 || s[pos] == 0x45) {
        pos := pos + 1;
        if pos < |s| && (s[pos] == 0x2B || s[pos] == MINUS) {
          pos := pos + 1;
        }
        SkipDigits();
      }
    }

    method TakeNumber() returns (r: Parsed<Value>)
      requires pos < |s| && (s[pos] == MINUS || IsDigit(s[pos]))
      modifies this
      ensures r == ParseNumber(s, old(pos)) && pos == r.End()
    {
      hide StrToD, DigitsEnd, FractionEnd, ExponentEnd;
      var start := pos;
      var _ := Expect(MINUS);
      if pos >= |s| {
        return Fail(BadNumber, pos);
      }
      SkipDigits();
      SkipFraction();
      SkipExponent();
      var num := s[start..pos];
      if num == [] || num == [MINUS] {
        return Fail(BadNumber, pos);
      }
      r := Ok(Number(StrToD(num)), pos);
    }

    method TakeHex4() returns (r: Parsed<nat>)
      requires pos <= |s|
      modifies this
      ensures r == ReadHex4(s, old(pos)) && pos == r.End()
    {
      if pos + 4 > |s| {
        return Fail(BadUnicodeEscape, pos);
      }
      ghost var h := s[pos..pos + 4];
      var start, v := pos, 0;
      for i := 0 to 4
        invariant pos == start + i <= |s|
        invariant AllHex(h[..i]) && v == HexNumber(h[..i])
      {
        var c := s[pos];
        assert h[i] == c && h[..i + 1] == h[..i] + [c];
        pos := pos + 1;
        if HexValue(c) < 0 {
          HexRunIs(h, i);
          return Fail(BadUnicodeEscape, pos);
        }
        v := v * 16 + HexValue(c);
      }
      assert h[..4] == h;
      r := Ok(v, pos);
    }

    method TakeUnicodeEscape() returns (r: Parsed<nat>)
      requires pos <= |s|
      modifies this
      ensures r == UnicodeEscape(s, old(pos)) && pos == r.End()
    {
      r := TakeHex4();
      if r.Fail? {
        return;
      }
      var cp := r.value;
      if 0xD800 <= cp <= 0xDBFF {
        if pos + 1 >= |s| || s[pos] != BACKSLASH || s[pos + 1] != 0x75 {
          return Fail(MissingLowSurrogate, pos);
        }
        pos := pos + 2;
        var low := TakeHex4();
        if low.Fail? || low.value < 0xDC00 || low.value > 0xDFFF {
          return Fail(BadLowSurrogate, pos);
        }
        cp := 0x10000 + (cp - 0xD800) * 1024 + (low.value - 0xDC00);
      }
      r := Ok(cp, pos);
    }

    /** One character of a string body, escaped or plain. */
    method TakeChar() returns (r: Parsed<bytes>)
      requires pos < |s| && s[pos] != QUOTE
      modifies this
      ensures r == StringChar(s, old(pos)) && pos == r.End()
    {
      hide UnicodeEscape;
      var c := s[pos];
      pos := pos + 1;
      if c != BACKSLASH {
        if c < 0x20 {
          return Fail(ControlCharacter, pos);
        }
        return Ok([c], pos);
      }
      if pos >= |s| {
        return Fail(BadEscape, pos);
      }
      var e := s[pos];
      pos := pos + 1;
      if e == 0x75 {
        var cp := TakeUnicodeEscape();
        r := if cp.Fail? then Fail(cp.error, cp.at) else Ok(Utf8.Encode(cp.value), cp.next);
      } else {
        var plain := SimpleEscape(e);
        r := if plain.Fail? then Fail(BadEscapeCharacter, pos) else Ok([plain.value], pos);
      }
    }

    method TakeString() returns (r: Parsed<bytes>)
      requires pos <= |s|
      modifies this
      ensures r == ParseString(s, old(pos)) && pos == r.End()
    {
      hide StringChar;
      var ok := Expect(QUOTE);
      if !ok {
        return Fail(ExpectedString, pos);
      }
      var value: bytes := [];
      while pos < |s|
        invariant pos <= |s|
        invariant ParseString(s, old(pos)) == StringBody(s, pos, value)
        decreases |s| - pos
      {
        if s[pos] == QUOTE {
          pos := pos + 1;
          return Ok(value, pos);
        }
        var c := TakeChar();
        if c.Fail? {
          return c;
        }
        value := value + c.value;
      }
      r := Fail(UnterminatedString, pos);
    }

    method TakeValue() returns (r: Parsed<Value>)
      requires pos <= |s|
      modifies this
      ensures r == ParseValue(s, old(pos)) && pos == r.End()
      decreases |s| - pos, 1
    {
      SkipSpace();
      if pos >= |s| {
        return Fail(UnexpectedEnd, pos);
      }
      var c := s[pos];
      if c == OPEN_BRACE {
        r := TakeObject();
      } else if c == OPEN_BRACKET {
        r := TakeArray();
      } else if c == QUOTE {
        var str := TakeString();
        r := if str.Fail? then Fail(str.error, str.at) else Ok(String(str.value), str.next);
      } else if c == 0x74 {
        r := TakeLiteral(TRUE_TEXT, Bool(true));
      } else if c == 0x66 {
        r := TakeLiteral(FALSE_TEXT, Bool(false));
      } else if c == 0x6E {
        r := TakeLiteral(NULL_TEXT, Null);
      } else if c == MINUS || 0x30 <= c <= 0x39 {
        r := TakeNumber();
      } else {
        r := Fail(UnexpectedCharacter, pos);
      }
    }

    method TakeArray() returns (r: Parsed<Value>)
      requires pos < |s| && s[pos] == OPEN_BRACKET
      modifies this
      ensures r == ParseArray(s, old(pos)) && pos == r.End()
      decreases |s| - pos, 0
    {
      hide ParseValue, SkipWs;
      pos := pos + 1;
      var items: seq<Value> := [];
      SkipSpace();
      var ok := Expect(CLOSE_BRACKET);
      if ok {
        return Ok(Array(items), pos);
      }
      while true
        invariant old(pos) < pos <= |s|
        invariant ParseArray(s, old(pos)) == ParseElements(s, pos, items)
        decreases |s| - pos
      {
        SkipSpace();
        var v := TakeValue();
        if v.Fail? {
          return v;
        }
        items := items + [v.value];
        SkipSpace();
        ok := Expect(CLOSE_BRACKET);
        if ok {
          return Ok(Array(items), pos);
        }
        ok := Expect(COMMA);
        if !ok {
          return Fail(ExpectedCommaOrBracket, pos);
        }
      }
    }

    method TakeMember() returns (r: Parsed<Member>)
      requires pos <= |s|
      modifies this
      ensures r == ParseMember(s, old(pos)) && pos == r.End()
      decreases |s| - pos, 2
    {
      hide ParseValue, SkipWs, ParseString;
      SkipSpace();
      var key := TakeString();
      if key.Fail? {
        return Fail(ExpectedKey, pos);
      }
      SkipSpace();
      var ok := Expect(COLON);
      if !ok {
        return Fail(ExpectedColon, pos);
      }
      SkipSpace();
      var v := TakeValue();
      r := if v.Fail? then Fail(v.error, v.at) else Ok(Member(key.value, v.value), v.next);
    }

    method TakeObject() returns (r: Parsed<Value>)
      requires pos < |s| && s[pos] == OPEN_BRACE
      modifies this
      ensures r == ParseObject(s, old(pos)) && pos == r.End()
      decreases |s| - pos, 0
    {
      hide ParseMember, SkipWs;
      pos := pos + 1;
      var members: seq<Member> := [];
      SkipSpace();
      var ok := Expect(CLOSE_BRACE);
      if ok {
        return Ok(Object(members), pos);
      }
      while true
        invariant old(pos) < pos <= |s|
        invariant ParseObject(s, old(pos)) == ParseMembers(s, pos, members)
        decreases |s| - pos
      {
        var m := TakeMember();
        if m.Fail? {
          return Fail(m.error, m.at);
        }
        members := members + [m.value];
        SkipSpace();
        ok := Expect(CLOSE_BRACE);
        if ok {
          return Ok(Object(members), pos);
        }
        ok := Expect(COMMA);
        if !ok {
          return Fail(ExpectedCommaOrBrace, pos);
        }
      }
    }
  }

  /** `parse` */
  method Parse(text: bytes) returns (r: Parsed<Value>)
    ensures r == ParseText(text)
  {
    var p := new Parser(text);
    r := p.TakeValue();
    if r.Fail? {
      return;
    }
    p.SkipSpace();
    r := if p.pos < |text| then Fail(TrailingData, p.pos) else Ok(r.value, p.pos);
  }
}
