/**
  What JSON numbers denote, stated on the texts themselves: a sign, digits, a fraction and an exponent
  (RFC 8259, section 6), with every byte written out. The scanner of src/json.cpp reads exactly these.
  */
module JsonNumerals {
  import opened Bytes
  import opened JsonPrinter
  import opened JsonParser

  // ----- Scanning -----

  /** A text the number scanner takes whole: an optional sign, digits, a fraction, an exponent. */
  predicate NumberShaped(text: bytes) {
    && text != [] && text != [MINUS] && (text[0] == MINUS || IsDigit(text[0]))
    && ScanEnd(text, if text[0] == MINUS then 1 else 0) == |text|
  }

  function ScanEnd(s: bytes, p: nat): (q: nat)
    requires p <= |s|
    ensures p <= q <= |s|
  {
    ExponentEnd(s, FractionEnd(s, DigitsEnd(s, p)))
  }

  lemma {:induction false} DigitsAreDigits(n: nat)
    ensures forall i | 0 <= i < |Digits(n)| :: IsDigit(Digits(n)[i])
    ensures DigitsValue(Digits(n)) == n
  {
    var d := Digits(n);
    if n < 10 {
      assert d[..0] == [];
    } else {
      DigitsAreDigits(n / 10);
      assert d[..|d| - 1] == Digits(n / 10);
    }
  }

  /** A run of digits ends exactly where the next byte is no digit. */
  lemma {:induction false} DigitsEndAt(s: bytes, p: nat, q: nat)
    requires p <= q <= |s|
    requires forall i | p <= i < q :: IsDigit(s[i])
    requires q < |s| ==> !IsDigit(s[q])
    ensures DigitsEnd(s, p) == q
    decreases q - p
  {
    if p < q {
      DigitsEndAt(s, p + 1, q);
    }
  }

  /** A position where a number cannot go on: the end, or a byte no number contains. */
  predicate Terminates(s: bytes, q: nat) {
    q <= |s| && (q < |s| ==> !IsDigit(s[q]) && s[q] != DOT && !IsE(s[q]) && !IsSign(s[q]))
  }

  lemma ByteAt(s: bytes, p: nat, text: bytes, i: nat)
    requires At(s, p, text) && i < |text|
    ensures p + i < |s| && s[p + i] == text[i]
  {
  }

  /** Scanning digits inside a text is scanning them in the document, up to the end of the text. */
  lemma {:induction false} DigitsEndLocal(s: bytes, p: nat, text: bytes, i: nat)
    requires At(s, p, text) && i <= |text| && Terminates(s, p + |text|)
    ensures DigitsEnd(s, p + i) == p + DigitsEnd(text, i)
    decreases |text| - i
  {
    if i < |text| {
      ByteAt(s, p, text, i);
      if IsDigit(text[i]) {
        DigitsEndLocal(s, p, text, i + 1);
      }
    }
  }

  lemma FractionEndLocal(s: bytes, p: nat, text: bytes, i: nat)
    requires At(s, p, text) && i <= |text| && Terminates(s, p + |text|)
    ensures FractionEnd(s, p + i) == p + FractionEnd(text, i)
  {
    if i < |text| {
      ByteAt(s, p, text, i);
      DigitsEndLocal(s, p, text, i + 1);
    }
  }

  lemma ExponentEndLocal(s: bytes, p: nat, text: bytes, i: nat)
    requires At(s, p, text) && i <= |text| && Terminates(s, p + |text|)
    ensures ExponentEnd(s, p + i) == p + ExponentEnd(text, i)
  {
    if i < |text| {
      ByteAt(s, p, text, i);
      DigitsEndLocal(s, p, text, i + 1);
      if i + 1 < |text| {
        ByteAt(s, p, text, i + 1);
        DigitsEndLocal(s, p, text, i + 2);
      }
    }
  }

  /** A printed number is read whole, and it stops exactly before what follows it. */
  lemma NumberParses(s: bytes, p: nat, text: bytes)
    requires NumberShaped(text) && At(s, p, text) && Terminates(s, p + |text|)
    ensures p < |s| && (s[p] == MINUS || IsDigit(s[p]))
    ensures ParseNumber(s, p) == Ok(Number(StrToD(text)), p + |text|)
  {
    hide StrToD, DigitsEnd, FractionEnd, ExponentEnd;
    AtFirst(s, p, text);
    var i := if text[0] == MINUS then 1 else 0;
    DigitsEndLocal(s, p, text, i);
    FractionEndLocal(s, p, text, DigitsEnd(text, i));
    ExponentEndLocal(s, p, text, FractionEnd(text, DigitsEnd(text, i)));
    assert s[p..p + |text|] == text;
  }

  // ----- Powers of ten -----

  function Ten(k: nat): (t: nat)
    ensures t > 0
  {
    if k == 0 then 1 else 10 * Ten(k - 1)
  }

  lemma {:induction false} PowIsPositive(e: int)
    ensures Pow10(e) > 0.0
    decreases if e < 0 then -e else e
  {
    if e > 0 {
      PowIsPositive(e - 1);
    } else if e < 0 {
      PowIsPositive(e + 1);
    }
  }

  lemma PowStep(e: int)
    ensures Pow10(e + 1) == 10.0 * Pow10(e)
  {
  }

  lemma TimesTen(x: real, y: real)
    ensures x * (10.0 * y) == 10.0 * (x * y)
  {
  }

  lemma {:induction false} PowSum(a: int, b: int)
    ensures Pow10(a + b) == Pow10(a) * Pow10(b)
    decreases if b < 0 then -b else b
  {
    hide Pow10;
    if b > 0 {
      PowSum(a, b - 1);
      PowStep(a + b - 1);
      PowStep(b - 1);
      TimesTen(Pow10(a), Pow10(b - 1));
    } else if b < 0 {
      PowSum(a, b + 1);
      PowStep(a + b);
      PowStep(b);
      TimesTen(Pow10(a), Pow10(b));
    } else {
      PowZero();
    }
  }

  lemma PowZero()
    ensures Pow10(0) == 1.0
  {
  }

  lemma {:induction false} PowOfNat(k: nat)
    ensures Pow10(k) == Ten(k) as real
  {
    if k > 0 {
      PowOfNat(k - 1);
    }
  }

  lemma {:induction false} PowGrows(a: int, b: int)
    requires a <= b
    ensures Pow10(a) <= Pow10(b)
    decreases b - a
  {
    hide Pow10;
    if a < b {
      PowGrows(a, b - 1);
      PowStep(b - 1);
      PowIsPositive(b - 1);
    }
  }

  lemma TimesOne(x: real, p: real)
    requires p == 1.0
    ensures x * p == x
  {
  }

  lemma PowOfNegative(k: nat)
    ensures Pow10(-(k as int)) == 1.0 / Ten(k) as real
  {
    hide Pow10;
    PowSum(k, -(k as int));
    PowZero();
    PowOfNat(k);
  }

  // ----- Numerals -----

  predicate AllDigits(s: bytes) {
    forall i | 0 <= i < |s| :: 0x30 <= s[i] <= 0x39
  }

  /** The number a row of digits denotes. */
  function Natural(d: bytes): nat
    requires AllDigits(d)
  {
    if d == [] then 0 else (d[0] - 0x30) * Ten(|d| - 1) + Natural(d[1..])
  }

  /** The number `w` + `f` / `t`, multiplied or divided by `u`. */
  function Quantity(w: nat, f: nat, t: nat, u: nat, divided: bool): real
    requires t > 0 && u > 0
  {
    var m := w as real + f as real / t as real;
    if divided then m / u as real else m * u as real
  }

  /**
    A number as it may be written. The parser also takes leading zeros, rows of digits that are empty, and a point or
    an exponent with nothing behind it; it only insists on a sign or digit in front and on more than a sign.
    */
  datatype Numeral = Numeral(
    negative: bool, whole: bytes, point: bool, fraction: bytes, letter: bytes, sign: bytes, exponent: bytes)
  {
    predicate Valid() {
      && AllDigits(whole) && AllDigits(fraction) && AllDigits(exponent)
      && (!point ==> fraction == [])
      && (letter == [] || letter == [0x65] || letter == [0x45])
      && (sign == [] || sign == [0x2B] || sign == [0x2D])
      && (letter == [] ==> sign == [] && exponent == [])
      && (whole != [] || (negative && (point || letter != [])))
    }

    function Text(): bytes {
      Sign() + whole + (FractionPart() + ExponentPart())
    }

    function Sign(): bytes {
      if negative then [0x2D] else []
    }

    function FractionPart(): bytes {
      if point then [0x2E] + fraction else []
    }

    function ExponentPart(): bytes {
      letter + sign + exponent
    }

    function Value(): real
      requires Valid()
    {
      var v := Quantity(Natural(whole), Natural(fraction), Ten(|fraction|), Ten(Natural(exponent)), sign == [0x2D]);
      if negative then -v else v
    }
  }

  lemma DigitsEndIn(s: bytes, p: nat, q: nat)
    requires p <= q <= |s| && AllDigits(s[p..q]) && (q < |s| ==> !IsDigit(s[q]))
    ensures DigitsEnd(s, p) == q
  {
    assert forall i | p <= i < q :: s[i] == s[p..q][i - p];
    DigitsEndAt(s, p, q);
  }

  lemma Slices(a: bytes, b: bytes, c: bytes)
    ensures var s := a + b + c;
            s[..|a|] == a && s[|a|..|a| + |b|] == b && s[|a| + |b|..] == c
  {
  }

  lemma ExponentBytes(s: bytes, f: nat, letter: byte, sign: bytes, exponent: bytes)
    requires f <= |s| && s[f..] == [letter] + sign + exponent && |sign| <= 1
    ensures f + 1 + |sign| <= |s| && s[f] == letter
    ensures s[f + 1 + |sign|..] == exponent == s[f + 1 + |sign|..|s|]
    ensures sign != [] ==> s[f + 1] == sign[0]
    ensures sign == [] && f + 1 < |s| ==> exponent != [] && s[f + 1] == exponent[0]
  {
    var w := s[f..];
    assert s[f] == w[0];
    assert s[f + 1 + |sign|..] == w[1 + |sign|..];
    if f + 1 < |s| {
      assert s[f + 1] == w[1];
    }
  }

  /** The exponent as a number, by its sign and its digits. */
  function SignedExponent(sign: bytes, digits: bytes): int
    requires AllDigits(digits)
  {
    var e: int := DigitsValue(digits);
    if sign == [0x2D] then -e else e
  }

  lemma ExponentTaken(s: bytes, f: nat, q: nat)
    requires f < |s| && IsE(s[f]) && q == if f + 1 < |s| && IsSign(s[f + 1]) then f + 2 else f + 1
    ensures ExponentEnd(s, f) == DigitsEnd(s, q)
    ensures var e: int := DigitsValue(s[q..DigitsEnd(s, q)]); ExponentValue(s, f) == if s[q - 1] == MINUS then -e else e
  {
    hide DigitsValue, DigitsEnd;
  }

  lemma ExponentAt(s: bytes, f: nat, letter: byte, sign: bytes, exponent: bytes)
    requires f <= |s| && s[f..] == [letter] + sign + exponent && IsE(letter)
    requires (sign == [] || sign == [0x2B] || sign == [0x2D]) && AllDigits(exponent)
    ensures ExponentEnd(s, f) == |s| && ExponentValue(s, f) == SignedExponent(sign, exponent)
  {
    hide DigitsValue, DigitsEnd, ExponentEnd, ExponentValue;
    ExponentBytes(s, f, letter, sign, exponent);
    DigitsEndIn(s, f + 1 + |sign|, |s|);
    ExponentTaken(s, f, f + 1 + |sign|);
  }

  lemma ExponentFound(s: bytes, f: nat, n: Numeral)
    requires f <= |s| && n.Valid() && s[f..] == n.ExponentPart()
    ensures ExponentEnd(s, f) == |s| && ExponentValue(s, f) == SignedExponent(n.sign, n.exponent)
  {
    if n.letter == [] {
      assert DigitsValue([]) == 0;
    } else {
      hide ExponentEnd, ExponentValue, SignedExponent;
      assert n.letter == [n.letter[0]];
      ExponentAt(s, f, n.letter[0], n.sign, n.exponent);
    }
  }

  lemma FractionBytes(s: bytes, q: nat, n: Numeral)
    requires q <= |s| && n.Valid() && s[q..] == n.FractionPart() + n.ExponentPart()
    ensures var f := q + |n.FractionPart()|;
            && f <= |s| && s[f..] == n.ExponentPart()
            && (n.point ==> q < f && s[q] == 0x2E && s[q + 1..f] == n.fraction)
            && (f < |s| ==> n.letter != [] && s[f] == n.letter[0])
  {
    var w := s[q..];
    assert q < |s| ==> s[q] == w[0];
    Slices([], n.FractionPart(), n.ExponentPart());
    assert [] + n.FractionPart() == n.FractionPart();
    assert s[q + |n.FractionPart()|..] == w[|n.FractionPart()|..];
    assert s[q..q + |n.FractionPart()|] == w[..|n.FractionPart()|];
    if n.point {
      assert s[q + 1..q + |n.FractionPart()|] == n.FractionPart()[1..];
    }
  }

  lemma FractionFound(s: bytes, q: nat, n: Numeral)
    requires q <= |s| && n.Valid() && s[q..] == n.FractionPart() + n.ExponentPart()
    ensures q < |s| ==> !IsDigit(s[q])
    ensures var f := q + |n.FractionPart()|;
            && FractionEnd(s, q) == f <= |s| && s[f..] == n.ExponentPart()
            && (n.point ==> s[q + 1..f] == n.fraction)
  {
    hide DigitsEnd, Numeral.ExponentPart;
    FractionBytes(s, q, n);
    if n.point {
      DigitsEndIn(s, q + 1, q + |n.FractionPart()|);
    }
  }

  /** The scanner finds the parts again. */
  lemma PartsFound(n: Numeral)
    requires n.Valid()
    ensures var s := n.Text();
            var p := if n.negative then 1 else 0;
            var q := p + |n.whole|;
            var f := q + |n.FractionPart()|;
            && |s| > p && (s[0] == MINUS <==> n.negative) && (n.negative || IsDigit(s[0]))
            && DigitsEnd(s, p) == q && FractionEnd(s, q) == f <= |s| && ExponentEnd(s, f) == |s|
            && s[p..q] == n.whole && (n.point ==> s[q + 1..f] == n.fraction)
            && ExponentValue(s, f) == SignedExponent(n.sign, n.exponent)
  {
    hide Numeral.FractionPart, Numeral.ExponentPart, DigitsEnd, FractionEnd, ExponentEnd, ExponentValue, DigitsValue;
    var s := n.Text();
    var p := if n.negative then 1 else 0;
    var q := p + |n.whole|;
    Slices(n.Sign(), n.whole, n.FractionPart() + n.ExponentPart());
    FractionFound(s, q, n);
    ExponentFound(s, q + |n.FractionPart()|, n);
    DigitsEndIn(s, p, q);
    FirstByte(n);
  }

  lemma FirstByte(n: Numeral)
    requires n.Valid()
    ensures var s := n.Text();
            && |s| > (if n.negative then 1 else 0)
            && (s[0] == MINUS <==> n.negative) && (n.negative || IsDigit(s[0]))
  {
  }

  lemma {:induction false} NaturalAppend(a: bytes, b: bytes)
    requires AllDigits(a) && AllDigits(b)
    ensures AllDigits(a + b) && Natural(a + b) == Natural(a) * Ten(|b|) + Natural(b)
    decreases |a|
  {
    if a == [] {
      assert a + b == b;
    } else {
      assert (a + b)[1..] == a[1..] + b;
      NaturalAppend(a[1..], b);
      TenSum(|a| - 1, |b|);
      Distributed(a[0] - 0x30, Ten(|a| - 1), Natural(a[1..]), Ten(|b|));
    }
  }

  lemma Distributed(c: int, t: int, r: int, u: int)
    ensures (c * t + r) * u == c * (t * u) + r * u
  {
  }

  lemma {:induction false} TenSum(i: nat, j: nat)
    ensures Ten(i + j) == Ten(i) * Ten(j)
  {
    if i > 0 {
      TenSum(i - 1, j);
    }
  }

  lemma {:induction false} NaturalIsValue(d: bytes)
    requires AllDigits(d)
    ensures DigitsValue(d) == Natural(d)
  {
    if d != [] {
      var front, last := d[..|d| - 1], [d[|d| - 1]];
      NaturalIsValue(front);
      NaturalAppend(front, last);
      assert d == front + last;
      assert Natural(last) == last[0] - 0x30 && Ten(1) == 10 by {
        assert last[1..] == [] && Ten(0) == 1;
      }
    }
  }

  lemma ScaledReals(w: real, f: real, t: real, u: real, down: bool, p: real, a: real, r: real)
    requires t > 0.0 && u > 0.0 && a == w * t + f && r == p * (1.0 / t) && p == if down then 1.0 / u else u
    ensures a * r == if down then (w + f / t) / u else (w + f / t) * u
  {
    var v := 1.0 / t;
    assert t * v == 1.0 && f / t == f * v;
    assert a * r == (a * v) * p;
    assert a * v == w * (t * v) + f * v;
    if down {
      OneOver(w + f / t, u);
    }
  }

  lemma OneOver(m: real, t: real)
    requires t > 0.0
    ensures m * (1.0 / t) == m / t
  {
  }

  lemma ScaledNats(w: nat, f: nat, t: nat, u: nat, down: bool, p: real, r: real)
    requires t > 0 && u > 0 && r == p * (1.0 / t as real) && p == if down then 1.0 / u as real else u as real
    ensures (w * t + f) as real * r == Quantity(w, f, t, u, down)
  {
    var a := (w * t + f) as real;
    assert a == w as real * t as real + f as real;
    ScaledReals(w as real, f as real, t as real, u as real, down, p, a, r);
  }

  lemma Shifted(w: nat, f: nat, k: nat, x: nat, down: bool)
    ensures (w * Ten(k) + f) as real * Pow10((if down then -(x as int) else x) - k)
            == Quantity(w, f, Ten(k), Ten(x), down)
  {
    hide Pow10, Ten, Quantity;
    var e: int := if down then -(x as int) else x;
    PowSum(e, -(k as int));
    PowOfNegative(k);
    PowOfNegative(x);
    PowOfNat(x);
    ScaledNats(w, f, Ten(k), Ten(x), down, Pow10(e), Pow10(e - k));
  }

  lemma StrToDParts(s: bytes, p: nat, q: nat, f: nat, whole: bytes, fraction: bytes, x: int)
    requires p <= q <= f <= |s| && p == if s != [] && s[0] == MINUS then 1 else 0
    requires DigitsEnd(s, p) == q && FractionEnd(s, q) == f && ExponentValue(s, f) == x
    requires whole == s[p..q] && fraction == if f > q then s[q + 1..f] else []
    requires AllDigits(whole + fraction)
    ensures var v := DigitsValue(whole + fraction) as real * Pow10(x - |fraction|);
            StrToD(s) == if whole + fraction == [] then 0.0 else if p == 1 then -v else v
  {
    hide DigitsEnd, ExponentValue, DigitsValue, Pow10;
  }

  lemma NumeralShape(n: Numeral)
    requires n.Valid()
    ensures NumberShaped(n.Text())
    ensures var v := DigitsValue(n.whole + n.fraction) as real
                     * Pow10(SignedExponent(n.sign, n.exponent) - |n.fraction|);
            StrToD(n.Text()) == if n.whole + n.fraction == [] then 0.0 else if n.negative then -v else v
  {
    hide Numeral.Text, Numeral.FractionPart, DigitsEnd, FractionEnd, ExponentEnd, ExponentValue, DigitsValue, Pow10;
    hide StrToD, SignedExponent;
    PartsFound(n);
    var s := n.Text();
    var p := if n.negative then 1 else 0;
    var q := p + |n.whole|;
    FractionLength(n);
    NumeralIsMore(n);
    StrToDParts(s, p, q, q + |n.FractionPart()|, n.whole, n.fraction, SignedExponent(n.sign, n.exponent));
  }

  lemma FractionLength(n: Numeral)
    requires n.Valid()
    ensures |n.FractionPart()| == if n.point then 1 + |n.fraction| else 0
  {
  }

  lemma NumeralIsMore(n: Numeral)
    requires n.Valid()
    ensures n.Text() != [0x2D]
  {
    assert |n.Text()| == |n.Sign()| + |n.whole| + |n.FractionPart()| + |n.ExponentPart()|;
    if !n.negative {
      assert n.Text()[0] == n.whole[0];
    }
  }

  /** Every numeral is a number of the scanner and is read as its value. */
  lemma NumeralReads(n: Numeral)
    requires n.Valid()
    ensures NumberShaped(n.Text()) && StrToD(n.Text()) == n.Value()
  {
    hide Numeral.Text, NumberShaped, DigitsValue, Natural, Pow10, StrToD, Ten, Quantity;
    NumeralShape(n);
    NaturalIsValue(n.exponent);
    NaturalAppend(n.whole, n.fraction);
    NaturalIsValue(n.whole + n.fraction);
    Shifted(Natural(n.whole), Natural(n.fraction), |n.fraction|, Natural(n.exponent), n.sign == [0x2D]);
    if n.whole + n.fraction == [] {
      NothingIsZero(n);
    }
  }

  lemma NothingIsZero(n: Numeral)
    requires n.Valid() && n.whole + n.fraction == []
    ensures n.Value() == 0.0
  {
  }

  lemma Halves(s: bytes, from: nat, middle: nat, to: nat)
    requires from <= middle <= to <= |s|
    ensures s[from..to] == s[from..middle] + s[middle..to]
  {
  }

  lemma FourSlices(s: bytes, p: nat, start: nat, d: nat, f: nat, end: nat)
    requires p <= start <= d <= f <= end <= |s|
    ensures s[p..end] == s[p..start] + s[start..d] + (s[d..f] + s[f..end])
  {
    Halves(s, p, d, end);
    Halves(s, p, start, d);
    Halves(s, d, f, end);
  }

  lemma DigitsTaken(s: bytes, p: nat)
    requires p <= |s|
    ensures AllDigits(s[p..DigitsEnd(s, p)])
  {
  }

  lemma ThreeSlices(s: bytes, f: nat, q: nat, end: nat)
    requires f < q <= end <= |s|
    ensures s[f..end] == [s[f]] + s[f + 1..q] + s[q..end]
  {
    Halves(s, f, q, end);
    Halves(s, f, f + 1, q);
    assert s[f..f + 1] == [s[f]];
  }

  lemma ExponentPartOf(s: bytes, f: nat) returns (letter: bytes, sign: bytes, exponent: bytes)
    requires f <= |s|
    ensures s[f..ExponentEnd(s, f)] == letter + sign + exponent
    ensures AllDigits(exponent) && (letter == [] || letter == [0x65] || letter == [0x45])
    ensures sign == [] || sign == [0x2B] || sign == [0x2D]
    ensures letter == [] ==> sign == [] && exponent == []
  {
    letter, sign, exponent := [], [], [];
    if f < |s| && IsE(s[f]) {
      hide DigitsEnd, ExponentEnd;
      var q := if f + 1 < |s| && IsSign(s[f + 1]) then f + 2 else f + 1;
      ExponentTaken(s, f, q);
      ThreeSlices(s, f, q, DigitsEnd(s, q));
      DigitsTaken(s, q);
      letter, sign, exponent := [s[f]], s[f + 1..q], s[q..DigitsEnd(s, q)];
      if q == f + 2 {
        assert sign == [s[f + 1]];
      }
    }
  }

  lemma NumeralSlices(s: bytes, p: nat, start: nat, d: nat, f: nat, end: nat, n: Numeral)
    requires p <= start <= d <= f <= end <= |s|
    requires s[p..start] == n.Sign() && s[start..d] == n.whole
    requires s[d..f] == n.FractionPart() && s[f..end] == n.ExponentPart()
    ensures s[p..end] == n.Text()
  {
    FourSlices(s, p, start, d, f, end);
  }

  lemma FractionPartOf(s: bytes, d: nat) returns (point: bool, fraction: bytes)
    requires d <= |s|
    ensures s[d..FractionEnd(s, d)] == if point then [0x2E] + fraction else []
    ensures AllDigits(fraction) && (!point ==> fraction == [])
  {
    point := d < |s| && s[d] == DOT;
    fraction := if point then s[d + 1..FractionEnd(s, d)] else [];
  }

  lemma NumberSpan(s: bytes, p: nat, start: nat, end: nat)
    requires p < |s| && (s[p] == MINUS || IsDigit(s[p])) && ParseNumber(s, p).Ok?
    requires start == (if s[p] == MINUS then p + 1 else p) && start <= |s| && end == ScanEnd(s, start)
    ensures s[p..end] != [MINUS] && ParseNumber(s, p) == Ok(Number(StrToD(s[p..end])), end)
  {
    hide StrToD, DigitsEnd, FractionEnd, ExponentEnd;
  }

  /** The parts of what the scanner takes, as a numeral. */
  lemma NumeralOf(s: bytes, p: nat, start: nat) returns (n: Numeral)
    requires p < |s| && start <= |s| && start == if s[p] == MINUS then p + 1 else p
    ensures s[p..ScanEnd(s, start)] == n.Text()
    ensures s[p] == MINUS || IsDigit(s[p]) ==> n.Valid() || n.Text() == [MINUS]
  {
    hide DigitsEnd, FractionEnd, ExponentEnd, Numeral.Text, Numeral.Valid, Numeral.FractionPart, Numeral.ExponentPart;
    var d := DigitsEnd(s, start);
    var f := FractionEnd(s, d);
    var point, fraction := FractionPartOf(s, d);
    var letter, sign, exponent := ExponentPartOf(s, f);
    n := Numeral(s[p] == MINUS, s[start..d], point, fraction, letter, sign, exponent);
    PartsAre(n);
    assert s[p..start] == n.Sign();
    NumeralSlices(s, p, start, d, f, ExponentEnd(s, f), n);
    DigitsTaken(s, start);
    FirstDigit(s, start, d);
    if n.negative || n.whole != [] {
      ValidUnlessSign(n);
    }
  }

  lemma PartsAre(n: Numeral)
    ensures n.FractionPart() == if n.point then [0x2E] + n.fraction else []
    ensures n.ExponentPart() == n.letter + n.sign + n.exponent
  {
  }

  lemma ValidUnlessSign(n: Numeral)
    requires AllDigits(n.whole) && AllDigits(n.fraction) && AllDigits(n.exponent) && (!n.point ==> n.fraction == [])
    requires n.letter == [] || n.letter == [0x65] || n.letter == [0x45]
    requires n.sign == [] || n.sign == [0x2B] || n.sign == [0x2D]
    requires n.letter == [] ==> n.sign == [] && n.exponent == []
    requires n.negative || n.whole != []
    ensures n.Valid() || n.Text() == [0x2D]
  {
    hide Numeral.Text;
    EmptyNumeral(n);
  }

  /** Whatever the scanner takes for a number is a numeral. */
  lemma NumberIsNumeral(s: bytes, p: nat) returns (n: Numeral)
    requires p < |s| && (s[p] == MINUS || IsDigit(s[p])) && ParseNumber(s, p).Ok?
    ensures n.Valid() && At(s, p, n.Text()) && ParseNumber(s, p) == Ok(Number(n.Value()), p + |n.Text()|)
  {
    hide StrToD, ParseNumber, Numeral.Text, Numeral.Value, Numeral.Valid, ScanEnd;
    var start := if s[p] == MINUS then p + 1 else p;
    n := NumeralOf(s, p, start);
    NumberSpan(s, p, start, ScanEnd(s, start));
    NumeralReads(n);
  }

  lemma FirstDigit(s: bytes, start: nat, d: nat)
    requires start <= d <= |s| && d == DigitsEnd(s, start)
    ensures start < |s| && IsDigit(s[start]) ==> s[start..d] != []
  {
  }

  lemma EmptyNumeral(n: Numeral)
    requires n.letter == [] ==> n.sign == [] && n.exponent == []
    ensures n.negative && n.whole == [] && !n.point && n.letter == [] ==> n.Text() == [0x2D]
  {
  }

  lemma NumeralParses(s: bytes, p: nat, n: Numeral)
    requires n.Valid() && At(s, p, n.Text()) && Terminates(s, p + |n.Text()|)
    ensures p < |s| && (s[p] == MINUS || IsDigit(s[p]))
    ensures ParseNumber(s, p) == Ok(Number(n.Value()), p + |n.Text()|)
  {
    hide Numeral.Text, Numeral.Value, StrToD, NumberShaped, ParseNumber, Terminates;
    NumeralReads(n);
    NumberParses(s, p, n.Text());
  }

  /** An integer as it is printed. */
  function IntegerNumeral(i: int): Numeral {
    Numeral(i < 0, Digits(if i < 0 then -i else i), false, [], [], [], [])
  }

  /** What is printed for a natural number: its decimal digits, the first of them no zero. */
  lemma {:induction false} DigitsAreDecimal(n: nat)
    ensures AllDigits(Digits(n)) && Natural(Digits(n)) == n
    ensures n > 0 ==> Digits(n)[0] != 0x30
    ensures n == 0 ==> Digits(n) == [0x30]
  {
    hide Natural;
    DigitsAreDigits(n);
    NaturalIsValue(Digits(n));
    if n >= 10 {
      DigitsAreDecimal(n / 10);
    }
  }

  lemma OfInteger(m: nat)
    ensures Quantity(m, 0, 1, 1, false) == m as real
  {
    assert 0 as real / 1 as real == 0.0;
    TimesOne(m as real + 0.0, 1 as real);
  }

  lemma IntegerValue(i: int)
    ensures IntegerNumeral(i).Valid() && IntegerNumeral(i).Value() == i as real
  {
    hide Quantity, Digits;
    var m: nat := if i < 0 then -i else i;
    DigitsAreDecimal(m);
    assert Ten(0) == 1 && Natural([]) == 0;
    OfInteger(m);
  }

  lemma IntegerText(i: int)
    ensures Decimal(i) == IntegerNumeral(i).Text()
  {
    hide Digits;
    assert [] + Digits(if i < 0 then -i else i) == Digits(if i < 0 then -i else i);
  }

  /** An integer's text is one numeral and denotes that integer. */
  lemma DecimalReads(i: int)
    ensures var n := IntegerNumeral(i); n.Valid() && Decimal(i) == n.Text() && n.Value() == i as real
    ensures NumberShaped(Decimal(i)) && StrToD(Decimal(i)) == i as real
  {
    hide NumberShaped, StrToD, Numeral.Value, Numeral.Valid, Numeral.Text, Decimal, IntegerNumeral;
    IntegerValue(i);
    IntegerText(i);
    NumeralReads(IntegerNumeral(i));
  }
}
