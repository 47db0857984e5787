/**
  What the tokenizer makes of letters, digits and everything else, stated on texts and code points alone
  (src/tokenizer.cpp).
  */
module TokenText {
  import opened Bytes
  import opened Utf8
  import opened Tokenizer

  // ----- ASCII -----

  predicate IsAsciiLetterOrDigit(b: byte) {
    0x30 <= b <= 0x39 || 0x41 <= b <= 0x5A || 0x61 <= b <= 0x7A
  }

  predicate IsCapital(b: byte) {
    0x41 <= b <= 0x5A
  }

  /** A text with its ASCII capitals made small, all other bytes kept. */
  function Lowered(t: bytes): bytes {
    seq(|t|, i requires 0 <= i < |t| => if IsCapital(t[i]) then t[i] + 0x20 else t[i])
  }

  lemma LoweredSlice(t: bytes, k: nat)
    requires k <= |t|
    ensures Lowered(t)[k..] == Lowered(t[k..])
  {
  }

  lemma {:induction false} ScanOfAscii(w: bytes, current: bytes)
    requires forall i | 0 <= i < |w| :: IsAsciiLetterOrDigit(w[i])
    ensures Scan(w, current) == Scanned([], current + Lowered(w))
    decreases |w|
  {
    if w == [] {
      assert Lowered(w) == [];
    } else {
      var small := if IsCapital(w[0]) then w[0] + 0x20 else w[0];
      AsciiStep(w);
      ScanOfAscii(w[1..], current + [small]);
      LoweredSlice(w, 1);
      assert Lowered(w) == [small] + Lowered(w)[1..];
      assert current + [small] + Lowered(w[1..]) == current + Lowered(w);
    }
  }

  lemma AsciiStep(w: bytes)
    requires w != [] && IsAsciiLetterOrDigit(w[0])
    ensures DecodeHead(w) == Decoded(w[0], 1) && IsTokenCharacter(w[0])
    ensures FoldCase(w[0]) == (if IsCapital(w[0]) then w[0] + 0x20 else w[0]) < 0x80
  {
  }

  /** A run of ASCII letters and digits is one token: the run in small letters. */
  lemma AsciiWord(w: bytes)
    requires w != [] && forall i | 0 <= i < |w| :: IsAsciiLetterOrDigit(w[i])
    ensures Tokens(w) == [Lowered(w)]
  {
    ScanOfAscii(w, []);
    assert [] + Lowered(w) == Lowered(w);
  }

  /** One step of the reader does not see the case of the letters behind a character it has begun to read. */
  lemma LoweredHead(t: bytes)
    requires t != []
    ensures IsCapital(t[0]) ==> DecodeHead(t) == Decoded(t[0], 1) && DecodeHead(Lowered(t)) == Decoded(t[0] + 0x20, 1)
    ensures !IsCapital(t[0]) ==> DecodeHead(Lowered(t)) == DecodeHead(t)
  {
    var s, n := Lowered(t), Announced(t[0]);
    assert forall i | 0 <= i < |t| :: IsContinuation(s[i]) <==> IsContinuation(t[i]);
    if !IsCapital(t[0]) && 1 < n <= |t| && forall i | 1 <= i < n :: IsContinuation(t[i]) {
      LoweredGathered(t, n);
    }
  }

  lemma {:induction false} LoweredGathered(t: bytes, k: nat)
    requires 1 <= k <= |t| && !IsCapital(t[0]) && forall i | 1 <= i < k :: IsContinuation(t[i])
    ensures Gathered(Lowered(t), k) == Gathered(t, k)
  {
    if k > 1 {
      LoweredGathered(t, k - 1);
    }
  }

  lemma {:induction false} ScanIgnoresCase(t: bytes, current: bytes)
    ensures Scan(Lowered(t), current) == Scan(t, current)
    decreases |t|
  {
    hide Encode, DecodeHead;
    if t != [] {
      LoweredHead(t);
      var d := DecodeHead(t);
      LoweredSlice(t, d.len);
      CapitalFolds(t[0]);
      FoldIsStable(d.cp);
      if IsTokenCharacter(d.cp) {
        ScanIgnoresCase(t[d.len..], current + Encode(FoldCase(d.cp)));
      } else {
        ScanIgnoresCase(t[d.len..], []);
      }
    }
  }

  lemma CapitalFolds(b: byte)
    ensures IsCapital(b) ==> IsTokenCharacter(b) && IsTokenCharacter(b + 0x20) && FoldCase(b) == FoldCase(b + 0x20)
  {
  }

  /** Making the ASCII capitals of a text small changes none of its tokens, for any bytes at all. */
  lemma CaseIsIgnored(t: bytes)
    ensures Tokens(Lowered(t)) == Tokens(t)
  {
    ScanIgnoresCase(t, []);
  }

  ghost predicate NoCapital(t: bytes) {
    forall i | 0 <= i < |t| :: !IsCapital(t[i])
  }

  lemma {:induction false} ScanLeavesNoCapital(t: bytes, current: bytes)
    requires NoCapital(current)
    ensures NoCapital(Scan(t, current).current)
    ensures forall i | 0 <= i < |Scan(t, current).tokens| :: NoCapital(Scan(t, current).tokens[i])
    decreases |t|
  {
    hide DecodeHead, Encode;
    if t != [] {
      var d := DecodeHead(t);
      if IsTokenCharacter(d.cp) {
        FoldIsStable(d.cp);
        FoldedHasNoCapital(d.cp);
        ScanLeavesNoCapital(t[d.len..], current + Encode(FoldCase(d.cp)));
      } else {
        ScanLeavesNoCapital(t[d.len..], []);
      }
    }
  }

  lemma FoldedHasNoCapital(cp: nat)
    requires IsTokenCharacter(cp) && IsScalar(FoldCase(cp))
    ensures NoCapital(Encode(FoldCase(cp)))
  {
  }

  /** No token holds an ASCII capital. */
  lemma TokensHaveNoCapital(t: bytes)
    ensures forall i | 0 <= i < |Tokens(t)| :: NoCapital(Tokens(t)[i])
  {
    ScanLeavesNoCapital(t, []);
  }

  // ----- All code points -----

  /** The capitals that are folded and their small forms. */
  predicate IsPair(capital: nat, small: nat) {
    || (0x41 <= capital <= 0x5A && small == capital + 0x20)
    || (0xC0 <= capital <= 0xDE && capital != 0xD7 && small == capital + 0x20)
    || (0x100 <= capital <= 0x24E && capital % 2 == 0 && small == capital + 1
        && capital != 0x1C4 && capital != 0x1C6 && capital != 0x1C8 && capital != 0x1CA && capital != 0x1CC)
    || (0x391 <= capital <= 0x3A9 && capital != 0x3A2 && small == capital + 0x20)
    || (0x410 <= capital <= 0x42F && small == capital + 0x20)
  }

  /** The code points that end a token: what lies between the blocks of letters and digits. */
  predicate IsGap(cp: nat) {
    || cp < 0x30 || 0x3A <= cp <= 0x40 || 0x5B <= cp <= 0x60 || 0x7B <= cp <= 0xBF || cp == 0xD7 || cp == 0xF7
    || 0x300 <= cp <= 0x36F || 0x500 <= cp <= 0x58F || 0x700 <= cp <= 0x8FF || 0xE00 <= cp <= 0x1EFF
    || 0x2000 <= cp <= 0x303F || 0x3100 <= cp <= 0x33FF || 0x4DC0 <= cp <= 0x4DFF || 0xA000 <= cp <= 0xABFF
    || cp > 0xD7AF
  }

  lemma ScanOfOne(cp: nat, b: bytes, current: bytes)
    requires IsScalar(cp) && IsTokenCharacter(cp)
    ensures IsScalar(FoldCase(cp)) && Scan(Encode(cp) + b, current) == Scan(b, current + Encode(FoldCase(cp)))
  {
    hide DecodeHead, IsTokenCharacter;
    FoldIsStable(cp);
    EncodingLeads(cp);
    DecodeAfterEncode(cp, b);
    hide Encode, FoldCase;
    assert (Encode(cp) + b)[|Encode(cp)|..] == b;
  }

  lemma SamePair(capital: nat, small: nat)
    requires IsPair(capital, small)
    ensures IsScalar(capital) && IsScalar(small) && IsTokenCharacter(capital) && IsTokenCharacter(small)
    ensures FoldCase(capital) == FoldCase(small) == small
  {
  }

  lemma TokensOfOne(cp: nat)
    requires IsScalar(cp)
    ensures IsScalar(FoldCase(cp))
    ensures Tokens(Encode(cp)) == if IsTokenCharacter(cp) then [Encode(FoldCase(cp))] else []
  {
    hide DecodeHead, IsTokenCharacter;
    var e := Encode(cp);
    assert e + [] == e;
    FoldedIsScalar(cp);
    hide Encode, FoldCase;
    EncodingLeads(FoldCase(cp));
    if IsTokenCharacter(cp) {
      ScanOfOne(cp, [], []);
      assert [] + Encode(FoldCase(cp)) == Encode(FoldCase(cp));
    } else {
      TokensSplitAtSeparator([], cp, []);
      assert [] + e + [] == e && Tokens([]) == [];
    }
  }

  lemma FoldedIsScalar(cp: nat)
    requires IsScalar(cp)
    ensures IsScalar(FoldCase(cp))
  {
  }

  /** A folded capital and its small form are one token each, the same: the small form. */
  lemma CapitalAndSmall(capital: nat, small: nat)
    requires IsPair(capital, small)
    ensures Tokens(Encode(capital)) == Tokens(Encode(small)) == [Encode(small)]
  {
    hide Encode, FoldCase, IsTokenCharacter, IsPair, Tokens;
    SamePair(capital, small);
    TokensOfOne(capital);
    TokensOfOne(small);
  }

  /** Every other code point outside the gaps is a token of its own, unchanged. */
  lemma OthersStayAsTheyAre(cp: nat)
    requires IsScalar(cp) && !IsGap(cp) && forall small | IsPair(cp, small) :: false
    ensures Tokens(Encode(cp)) == [Encode(cp)]
  {
    hide Encode;
    TokensOfOne(cp);
    assert !IsPair(cp, cp + 0x20) && !IsPair(cp, cp + 1);
  }

  /** A code point in a gap is no part of any token and separates the text before it from the text behind it. */
  lemma GapsSeparate(a: bytes, cp: nat, b: bytes)
    requires IsScalar(cp) && IsGap(cp)
    ensures Tokens(a + Encode(cp) + b) == Tokens(a) + Tokens(b)
  {
    TokensSplitAtSeparator(a, cp, b);
  }

  /** Anywhere in a text, whatever its other bytes, a folded capital may be replaced by its small form. */
  lemma CapitalMatchesSmall(a: bytes, capital: nat, small: nat, b: bytes)
    requires IsPair(capital, small)
    ensures Tokens(a + Encode(capital) + b) == Tokens(a + Encode(small) + b)
  {
    hide Encode, FoldCase, IsTokenCharacter, IsPair, Scan;
    var open := Scan(a, []).current;
    SamePair(capital, small);
    EncodingLeads(capital);
    EncodingLeads(small);
    ScanOfOne(capital, b, open);
    ScanOfOne(small, b, open);
    assert a + Encode(capital) + b == a + (Encode(capital) + b) && a + Encode(small) + b == a + (Encode(small) + b);
    ScanConcat(a, Encode(capital) + b, []);
    ScanConcat(a, Encode(small) + b, []);
  }

  /** A byte that no encoding contains separates as well. */
  lemma InvalidByteSeparates(a: bytes, x: byte, b: bytes)
    requires x >= 0xF8
    ensures Tokens(a + [x] + b) == Tokens(a) + Tokens(b)
  {
    var open, last := Scan(a, []).current, Scan(b, []);
    assert a + [x] + b == a + ([x] + b) && ([x] + b)[1..] == b;
    assert DecodeHead([x] + b) == Decoded(INVALID, 1);
    ScanConcat(a, [x] + b, []);
    var first := Scan(a, []).tokens;
    assert first + (Flush(open) + last.tokens) + Flush(last.current)
        == (first + Flush(open)) + (last.tokens + Flush(last.current));
  }
}
