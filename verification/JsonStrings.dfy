/**
  What JSON strings denote, stated on the texts themselves (RFC 8259, section 7): the ways to write a string, with
  every byte written out. The parser of src/json.cpp reads exactly these, and the printer writes the shortest.
  */
module JsonStrings {
  import opened Bytes
  import opened JsonPrinter
  import opened JsonParser
  import Utf8

  // ----- Hexadecimal digits -----

  /** The digit of a value below 16, in small or in capital letters. */
  function HexChar(d: nat, capital: bool): byte
    requires d < 16
  {
    if d < 10 then 0x30 + d else (if capital then 0x41 else 0x61) + (d - 10)
  }

  /** The four hexadecimal digits of a 16-bit number, each in its own case. */
  function HexText(u: nat, capitals: seq<bool>): bytes
    requires u < 0x10000 && |capitals| == 4
  {
    [HexChar(u / 4096, capitals[0]), HexChar(u / 256 % 16, capitals[1]), HexChar(u / 16 % 16, capitals[2]),
     HexChar(u % 16, capitals[3])]
  }

  lemma HexCharValue(d: nat, capital: bool)
    requires d < 16
    ensures HexValue(HexChar(d, capital)) == d
  {
  }

  lemma FourDigits(u: nat)
    requires u < 0x10000
    ensures u / 4096 < 16
    ensures ((u / 4096 * 16 + u / 256 % 16) * 16 + u / 16 % 16) * 16 + u % 16 == u
  {
    assert u / 256 == u / 16 / 16 && u / 4096 == u / 256 / 16;
  }

  lemma FourHexDigits(h: bytes)
    requires |h| == 4 && AllHex(h)
    ensures HexRun(h) == 4
    ensures HexNumber(h) == ((HexValue(h[0]) * 16 + HexValue(h[1])) * 16 + HexValue(h[2])) * 16 + HexValue(h[3])
  {
    var a, b, c := h[..3], h[..2], h[..1];
    assert a[..2] == b && b[..1] == c && c[..0] == [];
    assert HexNumber(c) == HexValue(h[0]);
    assert HexNumber(b) == HexNumber(c) * 16 + HexValue(h[1]);
    assert HexNumber(a) == HexNumber(b) * 16 + HexValue(h[2]);
    assert forall i | 0 <= i < 4 :: HexValue(h[i]) >= 0;
  }

  lemma HexTextReads(s: bytes, p: nat, u: nat, capitals: seq<bool>)
    requires u < 0x10000 && |capitals| == 4 && At(s, p, HexText(u, capitals))
    ensures ReadHex4(s, p) == Ok(u, p + 4)
  {
    hide HexNumber, HexRun, HexValue;
    var h := HexText(u, capitals);
    FourDigits(u);
    HexCharValue(u / 4096, capitals[0]);
    HexCharValue(u / 256 % 16, capitals[1]);
    HexCharValue(u / 16 % 16, capitals[2]);
    HexCharValue(u % 16, capitals[3]);
    FourHexDigits(h);
    assert s[p..p + 4] == h;
  }

  lemma HexCharOf(c: byte) returns (capital: bool)
    requires HexValue(c) >= 0
    ensures HexValue(c) < 16 && HexChar(HexValue(c), capital) == c
  {
    capital := c < 0x61;
  }

  lemma DigitsOfNumber(a: nat, b: nat, c: nat, d: nat)
    requires a < 16 && b < 16 && c < 16 && d < 16
    ensures var u := ((a * 16 + b) * 16 + c) * 16 + d;
            u < 0x10000 && u / 4096 == a && u / 256 % 16 == b && u / 16 % 16 == c && u % 16 == d
  {
    var u := ((a * 16 + b) * 16 + c) * 16 + d;
    assert u / 16 == (a * 16 + b) * 16 + c;
    assert u / 256 == u / 16 / 16 == a * 16 + b;
    assert u / 4096 == u / 256 / 16 == a;
  }

  lemma ReadIsHexText(s: bytes, p: nat) returns (capitals: seq<bool>)
    requires ReadHex4(s, p).Ok?
    ensures |capitals| == 4 && At(s, p, HexText(ReadHex4(s, p).value, capitals))
  {
    hide HexNumber, HexRun, HexValue, HexChar;
    var h := s[p..p + 4];
    assert h[..4] == h;
    FourHexDigits(h);
    var a := HexCharOf(h[0]);
    var b := HexCharOf(h[1]);
    var c := HexCharOf(h[2]);
    var d := HexCharOf(h[3]);
    capitals := [a, b, c, d];
    DigitsOfNumber(HexValue(h[0]), HexValue(h[1]), HexValue(h[2]), HexValue(h[3]));
    assert h == HexText(ReadHex4(s, p).value, capitals);
  }

  // ----- Strings -----

  /** The characters that have an escape of two bytes, and its second byte. */
  predicate IsShort(letter: byte, c: byte) {
    || (letter == 0x22 && c == 0x22) || (letter == 0x5C && c == 0x5C) || (letter == 0x2F && c == 0x2F)
    || (letter == 0x62 && c == 0x08) || (letter == 0x66 && c == 0x0C) || (letter == 0x6E && c == 0x0A)
    || (letter == 0x72 && c == 0x0D) || (letter == 0x74 && c == 0x09)
  }

  /** One character of a string as it may be written: as it is, or one of the three escapes. */
  datatype Piece =
    | Plain(c: byte)
    | Short(letter: byte, c: byte)
    | Unit(u: nat, capitals: seq<bool>)
    | Pair(cp: nat, high: seq<bool>, low: seq<bool>)
  {
    /** A unit is any 16-bit number that does not begin a pair; the parser takes a low surrogate alone as well. */
    predicate Valid() {
      match this
      case Plain(c) => c >= 0x20 && c != 0x22 && c != 0x5C
      case Short(letter, c) => IsShort(letter, c)
      case Unit(u, capitals) => u < 0x10000 && !(0xD800 <= u < 0xDC00) && |capitals| == 4
      case Pair(cp, high, low) => 0x10000 <= cp <= 0x10FFFF && |high| == 4 && |low| == 4
    }

    function Text(): bytes
      requires Valid()
    {
      match this
      case Plain(c) => [c]
      case Short(letter, _) => [0x5C, letter]
      case Unit(u, capitals) => [0x5C, 0x75] + HexText(u, capitals)
      case Pair(cp, high, low) =>
        [0x5C, 0x75] + HexText(0xD800 + (cp - 0x10000) / 1024, high)
        + ([0x5C, 0x75] + HexText(0xDC00 + (cp - 0x10000) % 1024, low))
    }

    function Meaning(): bytes
      requires Valid()
    {
      match this
      case Plain(c) => [c]
      case Short(_, c) => [c]
      case Unit(u, _) => Utf8.Encode(u)
      case Pair(cp, _, _) => Utf8.Encode(cp)
    }
  }

  predicate AllValid(pieces: seq<Piece>) {
    forall i | 0 <= i < |pieces| :: pieces[i].Valid()
  }

  function Spelled(pieces: seq<Piece>): bytes
    requires AllValid(pieces)
  {
    if pieces == [] then [] else pieces[0].Text() + Spelled(pieces[1..])
  }

  function Meant(pieces: seq<Piece>): bytes
    requires AllValid(pieces)
  {
    if pieces == [] then [] else pieces[0].Meaning() + Meant(pieces[1..])
  }

  lemma UnitReads(s: bytes, p: nat, u: nat, capitals: seq<bool>)
    requires u < 0x10000 && !(0xD800 <= u < 0xDC00) && |capitals| == 4 && At(s, p, HexText(u, capitals))
    ensures UnicodeEscape(s, p) == Ok(u, p + 4)
  {
    hide ReadHex4, HexText;
    HexTextReads(s, p, u, capitals);
  }

  lemma PairReads(s: bytes, p: nat, cp: nat, high: seq<bool>, low: seq<bool>)
    requires 0x10000 <= cp <= 0x10FFFF && |high| == 4 && |low| == 4
    requires At(s, p, HexText(0xD800 + (cp - 0x10000) / 1024, high)
                      + ([0x5C, 0x75] + HexText(0xDC00 + (cp - 0x10000) % 1024, low)))
    ensures UnicodeEscape(s, p) == Ok(cp, p + 10)
  {
    hide ReadHex4;
    var h, l := 0xD800 + (cp - 0x10000) / 1024, 0xDC00 + (cp - 0x10000) % 1024;
    var a, b := HexText(h, high), HexText(l, low);
    hide HexText;
    AtParts(s, p, a, [0x5C, 0x75] + b);
    AtParts(s, p + 4, [0x5C, 0x75], b);
    MarkAt(s, p + 4);
    HexTextReads(s, p, h, high);
    HexTextReads(s, p + 6, l, low);
  }

  lemma MarkAt(s: bytes, p: nat)
    ensures At(s, p, [0x5C, 0x75]) <==> p + 1 < |s| && s[p] == 0x5C && s[p + 1] == 0x75
  {
    if p + 1 < |s| && s[p] == 0x5C && s[p + 1] == 0x75 {
      assert s[p..p + 2] == [0x5C, 0x75];
    }
    if At(s, p, [0x5C, 0x75]) {
      assert s[p] == s[p..p + 2][0] && s[p + 1] == s[p..p + 2][1];
    }
  }

  lemma EscapeRead(s: bytes, p: nat, cp: nat, next: nat)
    requires At(s, p, [0x5C, 0x75]) && cp <= 0x10FFFF && UnicodeEscape(s, p + 2) == Ok(cp, next)
    ensures p < |s| && s[p] != QUOTE && StringChar(s, p) == Ok(Utf8.Encode(cp), next)
  {
    hide UnicodeEscape, Utf8.Encode;
    MarkAt(s, p);
  }

  lemma PlainReads(s: bytes, p: nat, piece: Piece)
    requires (piece.Plain? || piece.Short?) && piece.Valid() && At(s, p, piece.Text())
    ensures p < |s| && s[p] != QUOTE && StringChar(s, p) == Ok(piece.Meaning(), p + |piece.Text()|)
  {
    hide UnicodeEscape;
    if piece.Short? {
      assert s[p] == s[p..p + 2][0] && s[p + 1] == s[p..p + 2][1];
    }
  }

  lemma PairPieceReads(s: bytes, p: nat, cp: nat, high: seq<bool>, low: seq<bool>)
    requires 0x10000 <= cp <= 0x10FFFF && |high| == 4 && |low| == 4 && At(s, p, Pair(cp, high, low).Text())
    ensures p < |s| && s[p] != QUOTE && StringChar(s, p) == Ok(Utf8.Encode(cp), p + 12)
    ensures |Pair(cp, high, low).Text()| == 12
  {
    hide HexText, StringChar, UnicodeEscape;
    var h, l := 0xD800 + (cp - 0x10000) / 1024, 0xDC00 + (cp - 0x10000) % 1024;
    var a, b := HexText(h, high), [0x5C, 0x75] + HexText(l, low);
    Associative([0x5C, 0x75], a, b);
    AtParts(s, p, [0x5C, 0x75], a + b);
    PairReads(s, p + 2, cp, high, low);
    HexTextLength(h, high);
    HexTextLength(l, low);
    EscapeRead(s, p, cp, p + 12);
  }

  /** Each piece is read as what it means. */
  lemma PieceReads(s: bytes, p: nat, piece: Piece)
    requires piece.Valid() && At(s, p, piece.Text())
    ensures p < |s| && s[p] != QUOTE
    ensures StringChar(s, p) == Ok(piece.Meaning(), p + |piece.Text()|)
  {
    hide HexText, StringChar, UnicodeEscape, At;
    match piece
    case Unit(u, capitals) =>
      AtParts(s, p, [0x5C, 0x75], HexText(u, capitals));
      HexTextLength(u, capitals);
      UnitReads(s, p + 2, u, capitals);
      EscapeRead(s, p, u, p + 6);
    case Pair(cp, high, low) => PairPieceReads(s, p, cp, high, low);
    case _ => PlainReads(s, p, piece);
  }

  lemma HexTextLength(u: nat, capitals: seq<bool>)
    requires u < 0x10000 && |capitals| == 4
    ensures |HexText(u, capitals)| == 4
  {
  }

  lemma {:induction false} PiecesRead(s: bytes, p: nat, value: bytes, pieces: seq<Piece>)
    requires AllValid(pieces) && At(s, p, Spelled(pieces) + [0x22])
    ensures StringBody(s, p, value) == Ok(value + Meant(pieces), p + |Spelled(pieces)| + 1)
    decreases |pieces|
  {
    hide StringChar, Piece.Text, Piece.Meaning;
    AtParts(s, p, Spelled(pieces), [0x22]);
    if pieces == [] {
      AtFirst(s, p, [0x22]);
      assert value + [] == value;
    } else {
      var t, rest := pieces[0].Text(), Spelled(pieces[1..]);
      Associative(t, rest, [0x22]);
      AtParts(s, p, t, rest + [0x22]);
      PieceReads(s, p, pieces[0]);
      PiecesRead(s, p + |t|, value + pieces[0].Meaning(), pieces[1..]);
      Associative(value, pieces[0].Meaning(), Meant(pieces[1..]));
    }
  }

  /** A string in quotes is read as what its pieces mean. */
  lemma SpelledIsRead(s: bytes, p: nat, pieces: seq<Piece>)
    requires AllValid(pieces) && At(s, p, [0x22] + Spelled(pieces) + [0x22])
    ensures ParseString(s, p) == Ok(Meant(pieces), p + |Spelled(pieces)| + 2)
  {
    hide StringBody, Spelled, Meant;
    assert [0x22] + Spelled(pieces) + [0x22] == [0x22] + (Spelled(pieces) + [0x22]);
    AtParts(s, p, [0x22], Spelled(pieces) + [0x22]);
    AtFirst(s, p, [0x22]);
    PiecesRead(s, p + 1, [], pieces);
    assert [] + Meant(pieces) == Meant(pieces);
  }

  // ----- Nothing else is a string -----

  lemma PairOf(high: nat, low: nat)
    requires 0xD800 <= high < 0xDC00 && 0xDC00 <= low < 0xE000
    ensures var cp := 0x10000 + (high - 0xD800) * 1024 + (low - 0xDC00);
            && 0x10000 <= cp <= 0x10FFFF
            && 0xD800 + (cp - 0x10000) / 1024 == high && 0xDC00 + (cp - 0x10000) % 1024 == low
  {
  }

  lemma EscapeIsPiece(s: bytes, p: nat) returns (piece: Piece)
    requires At(s, p, [0x5C, 0x75]) && UnicodeEscape(s, p + 2).Ok?
    ensures piece.Valid() && At(s, p, piece.Text()) && p + |piece.Text()| == UnicodeEscape(s, p + 2).next
    ensures piece.Meaning() == Utf8.Encode(UnicodeEscape(s, p + 2).value)
  {
    hide ReadHex4, HexText, Utf8.Encode;
    var mark := [0x5C, 0x75];
    var high := ReadHex4(s, p + 2);
    var a := ReadIsHexText(s, p + 2);
    AtParts(s, p, mark, HexText(high.value, a));
    HexTextLength(high.value, a);
    if 0xD800 <= high.value <= 0xDBFF {
      var low := ReadHex4(s, p + 8);
      var b := ReadIsHexText(s, p + 8);
      PairOf(high.value, low.value);
      piece := Pair(UnicodeEscape(s, p + 2).value, a, b);
      MarkAt(s, p + 6);
      AtParts(s, p + 6, mark, HexText(low.value, b));
      AtParts(s, p, mark + HexText(high.value, a), mark + HexText(low.value, b));
      HexTextLength(low.value, b);
    } else {
      piece := Unit(high.value, a);
    }
  }

  lemma CharIsPiece(s: bytes, p: nat) returns (piece: Piece)
    requires p < |s| && s[p] != QUOTE && StringChar(s, p).Ok?
    ensures piece.Valid() && At(s, p, piece.Text())
    ensures StringChar(s, p) == Ok(piece.Meaning(), p + |piece.Text()|)
  {
    hide UnicodeEscape, Utf8.Encode, HexText;
    if s[p] != 0x5C {
      piece := Plain(s[p]);
    } else if s[p + 1] == 0x75 {
      MarkAt(s, p);
      piece := EscapeIsPiece(s, p);
    } else {
      piece := Short(s[p + 1], SimpleEscape(s[p + 1]).value);
      assert s[p..p + 2] == [0x5C, s[p + 1]];
    }
  }

  lemma {:induction false} BodyIsPieces(s: bytes, p: nat, value: bytes) returns (pieces: seq<Piece>)
    requires p <= |s| && StringBody(s, p, value).Ok?
    ensures AllValid(pieces) && At(s, p, Spelled(pieces) + [0x22])
    ensures StringBody(s, p, value) == Ok(value + Meant(pieces), p + |Spelled(pieces)| + 1)
    decreases |s| - p
  {
    hide StringChar, Piece.Text, Piece.Meaning;
    if s[p] == 0x22 {
      pieces := [];
      assert s[p..p + 1] == [0x22] && value + [] == value;
    } else {
      var piece := CharIsPiece(s, p);
      var rest := BodyIsPieces(s, p + |piece.Text()|, value + piece.Meaning());
      pieces := [piece] + rest;
      assert pieces[1..] == rest;
      AtParts(s, p, piece.Text(), Spelled(rest) + [0x22]);
      Associative(piece.Text(), Spelled(rest), [0x22]);
      Associative(value, piece.Meaning(), Meant(rest));
    }
  }

  /** A string is read with some value exactly when it is spelled in quotes by pieces that mean that value. */
  lemma StringExactly(s: bytes, p: nat, value: bytes, next: nat)
    requires p <= |s|
    ensures ParseString(s, p) == Ok(value, next) <==>
            exists pieces: seq<Piece> ::
              && AllValid(pieces) && At(s, p, [0x22] + Spelled(pieces) + [0x22])
              && value == Meant(pieces) && next == p + |Spelled(pieces)| + 2
  {
    hide StringBody, Spelled, Meant;
    if ParseString(s, p) == Ok(value, next) {
      var pieces := BodyIsPieces(s, p + 1, []);
      assert [] + Meant(pieces) == Meant(pieces);
      assert s[p..p + 1] == [0x22];
      AtParts(s, p, [0x22], Spelled(pieces) + [0x22]);
      assert [0x22] + Spelled(pieces) + [0x22] == [0x22] + (Spelled(pieces) + [0x22]);
    }
    forall pieces: seq<Piece> | AllValid(pieces) && At(s, p, [0x22] + Spelled(pieces) + [0x22])
      ensures ParseString(s, p) == Ok(Meant(pieces), p + |Spelled(pieces)| + 2)
    {
      SpelledIsRead(s, p, pieces);
    }
  }

  // ----- What is printed -----

  lemma HighByteStays(c: byte)
    requires c >= 0x80
    ensures EscapeByte(c) == [c]
  {
  }

  lemma {:induction false} HighBytesStay(s: bytes)
    requires forall i | 0 <= i < |s| :: s[i] >= 0x80
    ensures Escape(s) == s
  {
    hide EscapeByte;
    if s != [] {
      HighByteStays(s[0]);
      HighBytesStay(s[1..]);
      assert s == [s[0]] + s[1..];
    }
  }

  lemma EscapeOne(c: byte)
    ensures Escape([c]) == EscapeByte(c)
  {
    assert [c][1..] == [] && EscapeByte(c) + [] == EscapeByte(c);
  }

  lemma {:induction false} EscapeTwo(s: bytes, t: bytes)
    ensures Escape(s + t) == Escape(s) + Escape(t)
    decreases |s|
  {
    hide EscapeByte;
    if s == [] {
      assert s + t == t;
    } else {
      assert (s + t)[1..] == s[1..] + t;
      EscapeTwo(s[1..], t);
    }
  }

  lemma HighEncoding(u: nat)
    requires 0x80 <= u <= 0x10FFFF
    ensures forall i | 0 <= i < |Utf8.Encode(u)| :: Utf8.Encode(u)[i] >= 0x80
    ensures |Utf8.Encode(u)| <= 4
  {
  }

  lemma PieceIsNoShorter(piece: Piece)
    requires piece.Valid()
    ensures |Escape(piece.Meaning())| <= |piece.Text()|
  {
    hide HexText, Escape;
    match piece
    case Unit(u, capitals) =>
      HexTextLength(u, capitals);
      if u < 0x80 {
        EscapeOne(u);
      } else {
        HighEncoding(u);
        HighBytesStay(Utf8.Encode(u));
      }
    case Pair(cp, high, low) =>
      HighEncoding(cp);
      HighBytesStay(Utf8.Encode(cp));
    case Plain(c) => EscapeOne(c);
    case Short(_, c) => EscapeOne(c);
  }

  /** Of all the ways to write a string, the printer chooses one that is as short as any. */
  lemma {:induction false} PrintedIsShortest(pieces: seq<Piece>)
    requires AllValid(pieces)
    ensures |Escape(Meant(pieces))| <= |Spelled(pieces)|
  {
    hide Escape, Piece.Text, Piece.Meaning;
    if pieces == [] {
      assert Escape([]) == [] by {
        HighBytesStay([]);
      }
    } else {
      PieceIsNoShorter(pieces[0]);
      PrintedIsShortest(pieces[1..]);
      EscapeTwo(pieces[0].Meaning(), Meant(pieces[1..]));
    }
  }

  /** How the printer writes a character. */
  function PieceOf(c: byte): (piece: Piece)
    ensures piece.Valid()
  {
    if c == 0x22 || c == 0x5C then Short(c, c)
    else if c == 0x08 then Short(0x62, c)
    else if c == 0x0C then Short(0x66, c)
    else if c == 0x0A then Short(0x6E, c)
    else if c == 0x0D then Short(0x72, c)
    else if c == 0x09 then Short(0x74, c)
    else if c < 0x20 then Unit(c, [false, false, false, false])
    else Plain(c)
  }

  function PiecesOf(str: bytes): (pieces: seq<Piece>)
    ensures AllValid(pieces)
  {
    seq(|str|, i requires 0 <= i < |str| => PieceOf(str[i]))
  }

  lemma PrintedPiece(c: byte)
    ensures PieceOf(c).Text() == EscapeByte(c) && PieceOf(c).Meaning() == [c]
  {
    assert c as nat / 4096 == 0 && c as nat / 256 % 16 == 0 && (c < 0x20 ==> c as nat / 16 % 16 == c / 16);
  }

  /** A string is printed in one of the ways to write it. */
  lemma {:induction false} PrintedIsSpelled(str: bytes)
    ensures Spelled(PiecesOf(str)) == Escape(str) && Meant(PiecesOf(str)) == str
  {
    hide EscapeByte, Piece.Text, Piece.Meaning, PieceOf;
    if str != [] {
      PrintedPiece(str[0]);
      assert PiecesOf(str)[1..] == PiecesOf(str[1..]);
      PrintedIsSpelled(str[1..]);
    }
  }

  lemma QuotedParses(s: bytes, p: nat, str: bytes)
    requires At(s, p, Quoted(str))
    ensures ParseString(s, p) == Ok(str, p + |Quoted(str)|)
  {
    hide Spelled, Meant, ParseString, Escape;
    PrintedIsSpelled(str);
    SpelledIsRead(s, p, PiecesOf(str));
  }

  /** The control characters without a short escape are written with the digits in small letters. */
  lemma ControlsAreSmall(c: byte)
    requires c < 0x20 && forall letter: byte :: !IsShort(letter, c)
    ensures Escape([c]) == [0x5C, 0x75] + HexText(c, [false, false, false, false])
  {
    EscapeOne(c);
    assert !IsShort(0x62, c) && !IsShort(0x66, c) && !IsShort(0x6E, c) && !IsShort(0x72, c) && !IsShort(0x74, c);
    assert c as nat / 4096 == 0 && c as nat / 256 % 16 == 0 && c as nat / 16 % 16 == c / 16;
  }
}
