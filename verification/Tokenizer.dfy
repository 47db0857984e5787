/** The tokenizer of src/tokenizer.cpp: folded runs of token characters, everything else separates. */
module Tokenizer {
  import opened Bytes
  import opened Utf8

  predicate IsTokenCharacter(cp: nat) {
    if cp == INVALID then false
    else if cp < 0x80 then
      0x61 <= cp <= 0x7A || 0x41 <= cp <= 0x5A || 0x30 <= cp <= 0x39
    else
      || (0x00C0 <= cp <= 0x00FF && cp != 0x00D7 && cp != 0x00F7)
      || 0x0100 <= cp <= 0x02FF
      || 0x0370 <= cp <= 0x03FF || 0x1F00 <= cp <= 0x1FFF
      || 0x0400 <= cp <= 0x04FF
      || 0x0590 <= cp <= 0x05FF || 0x0600 <= cp <= 0x06FF || 0x0900 <= cp <= 0x0DFF
      || 0x3040 <= cp <= 0x30FF || 0x3400 <= cp <= 0x4DBF
      || 0x4E00 <= cp <= 0x9FFF || 0xAC00 <= cp <= 0xD7AF
  }

  function FoldCase(cp: nat): nat {
    if 0x41 <= cp <= 0x5A then cp + 0x20
    else if 0x00C0 <= cp <= 0x00DE && cp != 0x00D7 then cp + 0x20
    else if 0x0100 <= cp <= 0x017F && cp % 2 == 0 then cp + 1
    else if 0x0180 <= cp <= 0x024F && cp % 2 == 0 && !(0x01C4 <= cp <= 0x01CC) then cp + 1
    else if 0x0391 <= cp <= 0x03A9 && cp != 0x03A2 then cp + 0x20
    else if 0x0410 <= cp <= 0x042F then cp + 0x20
    else cp
  }

  /** Folding stays among the token characters and has nothing left to fold the second time. */
  lemma FoldIsStable(cp: nat)
    ensures FoldCase(FoldCase(cp)) == FoldCase(cp)
    ensures IsTokenCharacter(cp) ==> IsTokenCharacter(FoldCase(cp))
    ensures IsTokenCharacter(cp) ==> IsScalar(cp) && IsScalar(FoldCase(cp))
  {
  }

  /** The tokens completed so far and the one still open. */
  datatype Scanned = Scanned(tokens: seq<bytes>, current: bytes)

  function Flush(current: bytes): seq<bytes> {
    if current == [] then [] else [current]
  }

  /** What the reading loop does to the open token `current` over the whole of `text`. */
  function Scan(text: bytes, current: bytes): Scanned
    decreases |text|
  {
    if text == [] then Scanned([], current)
    else
      var d := DecodeHead(text);
      if IsTokenCharacter(d.cp) then
        FoldIsStable(d.cp);
        Scan(text[d.len..], current + Encode(FoldCase(d.cp)))
      else
        var rest := Scan(text[d.len..], []);
        Scanned(Flush(current) + rest.tokens, rest.current)
  }

  function Tokens(text: bytes): seq<bytes> {
    var r := Scan(text, []);
    r.tokens + Flush(r.current)
  }

  /** `tokenize` */
  method Tokenize(text: bytes) returns (tokens: seq<bytes>)
    ensures tokens == Tokens(text)
  {
    tokens := [];
    var current: bytes := [];
    var offset := 0;
    while offset < |text|
      invariant offset <= |text|
      invariant Scan(text, []) == Chain(Scanned(tokens, []), Scan(text[offset..], current))
      decreases |text| - offset
    {
      ghost var rest, before := text[offset..], offset;
      var cp;
      cp, offset := DecodeUtf8(text, offset);
      assert text[offset..] == rest[offset - before..];
      if IsTokenCharacter(cp) {
        FoldIsStable(cp);
        current := current + Encode(FoldCase(cp));
      } else {
        ChainFlushed(tokens, Flush(current), Scan(text[offset..], []));
        if current != [] {
          tokens := tokens + [current];
          current := [];
        }
      }
    }
    assert text[offset..] == [];
    if current != [] {
      tokens := tokens + [current];
    }
  }

  lemma ChainFlushed(tokens: seq<bytes>, flushed: seq<bytes>, rest: Scanned)
    ensures Chain(Scanned(tokens, []), Scanned(flushed + rest.tokens, rest.current))
         == Chain(Scanned(tokens + flushed, []), rest)
    ensures flushed == [] ==> tokens + flushed == tokens
  {
  }

  // ----- Resynchronisation -----

  function Chain(first: Scanned, second: Scanned): Scanned {
    Scanned(first.tokens + second.tokens, second.current)
  }

  /**
    Scanning a concatenation is scanning the parts in turn, for any bytes at all, as long as the
    second part does not begin in the middle of an encoding.
    */
  lemma {:induction false} ScanConcat(x: bytes, y: bytes, current: bytes)
    requires y == [] || !IsContinuation(y[0])
    ensures Scan(x + y, current) == Chain(Scan(x, current), Scan(y, Scan(x, current).current))
    decreases |x|
  {
    if x == [] {
      assert x + y == y;
      assert [] + Scan(y, current).tokens == Scan(y, current).tokens;
    } else {
      DecodeHeadIsLocal(x, y);
      var d := DecodeHead(x);
      var x' := x[d.len..];
      assert (x + y)[d.len..] == x' + y;
      if IsTokenCharacter(d.cp) {
        FoldIsStable(d.cp);
        var current' := current + Encode(FoldCase(d.cp));
        ScanConcat(x', y, current');
      } else {
        ScanConcat(x', y, []);
        ChainIsAssociative(Flush(current), Scan(x', []), Scan(y, Scan(x', []).current));
      }
    }
  }

  lemma ChainIsAssociative(done: seq<bytes>, a: Scanned, b: Scanned)
    ensures Chain(Scanned(done + a.tokens, a.current), b) == Scanned(done + Chain(a, b).tokens, b.current)
  {
  }

  /**
    Tokenizing resynchronises at a separator: malformed text on either side cannot leak across it.
    The separator may be any encoded character that is not a token character.
    */
  lemma TokensSplitAtSeparator(a: bytes, separator: nat, b: bytes)
    requires IsScalar(separator) && !IsTokenCharacter(separator)
    ensures Tokens(a + Encode(separator) + b) == Tokens(a) + Tokens(b)
  {
    var e := Encode(separator);
    EncodingLeads(separator);
    var open := Scan(a, []).current;
    DecodeAfterEncode(separator, b);
    assert (e + b)[|e|..] == b;
    assert a + e + b == a + (e + b);
    ScanConcat(a, e + b, []);
    var first, last := Scan(a, []).tokens, Scan(b, []);
    assert first + (Flush(open) + last.tokens) + Flush(last.current)
        == (first + Flush(open)) + (last.tokens + Flush(last.current));
  }

  /** In particular at every ASCII byte that is not a letter or a digit. */
  lemma TokensSplitAtAscii(a: bytes, separator: byte, b: bytes)
    requires separator < 0x30 || 0x3A <= separator <= 0x40 || 0x5B <= separator <= 0x60 || 0x7B <= separator <= 0x7F
    ensures Tokens(a + [separator] + b) == Tokens(a) + Tokens(b)
  {
    TokensSplitAtSeparator(a, separator, b);
  }

  // ----- Idempotence -----

  /** Scanning `w` changes nothing in it: it is one run of folded token characters. */
  ghost predicate Canonical(w: bytes) {
    forall current: bytes :: Scan(w, current) == Scanned([], current + w)
  }

  lemma CanonicalExtends(w: bytes, cp: nat)
    requires Canonical(w) && IsTokenCharacter(cp)
    ensures IsScalar(FoldCase(cp)) && Canonical(w + Encode(FoldCase(cp)))
  {
    FoldIsStable(cp);
    var f := FoldCase(cp);
    var e := Encode(f);
    EncodingLeads(f);
    forall current: bytes
      ensures Scan(w + e, current) == Scanned([], current + (w + e))
    {
      ScanConcat(w, e, current);
      DecodeAfterEncode(f, []);
      assert e + [] == e && e[|e|..] == [];
      assert Scan(e, current + w) == Scan([], current + w + e);
      assert current + w + e == current + (w + e);
    }
  }

  ghost predicate AllWords(tokens: seq<bytes>) {
    forall i | 0 <= i < |tokens| :: tokens[i] != [] && Canonical(tokens[i])
  }

  lemma {:induction false} ScanYieldsWords(text: bytes, current: bytes)
    requires Canonical(current)
    ensures AllWords(Scan(text, current).tokens)
    ensures Canonical(Scan(text, current).current)
    decreases |text|
  {
    if text != [] {
      var d := DecodeHead(text);
      if IsTokenCharacter(d.cp) {
        FoldIsStable(d.cp);
        CanonicalExtends(current, d.cp);
        ScanYieldsWords(text[d.len..], current + Encode(FoldCase(d.cp)));
      } else {
        EmptyIsCanonical();
        ScanYieldsWords(text[d.len..], []);
      }
    }
  }

  lemma EmptyIsCanonical()
    ensures Canonical([])
  {
  }

  lemma TokensAreWords(text: bytes)
    ensures AllWords(Tokens(text))
  {
    EmptyIsCanonical();
    ScanYieldsWords(text, []);
  }

  function JoinWithSpaces(tokens: seq<bytes>): bytes {
    if tokens == [] then []
    else if |tokens| == 1 then tokens[0]
    else tokens[0] + [0x20] + JoinWithSpaces(tokens[1..])
  }

  lemma TokensOfWord(w: bytes)
    requires w != [] && Canonical(w)
    ensures Tokens(w) == [w]
  {
    assert Scan(w, []) == Scanned([], [] + w);
    assert [] + w == w;
  }

  lemma {:induction false} TokensOfWords(words: seq<bytes>)
    requires AllWords(words)
    ensures Tokens(JoinWithSpaces(words)) == words
  {
    if words != [] {
      var w := words[0];
      TokensOfWord(w);
      if |words| > 1 {
        TokensSplitAtAscii(w, 0x20, JoinWithSpaces(words[1..]));
        TokensOfWords(words[1..]);
      }
      assert words == [w] + words[1..];
    }
  }

  /** Tokenizing is idempotent: the tokens of any text, written out with spaces, are themselves. */
  lemma TokenizeIsIdempotent(text: bytes)
    ensures Tokens(JoinWithSpaces(Tokens(text))) == Tokens(text)
  {
    TokensAreWords(text);
    TokensOfWords(Tokens(text));
  }
}
