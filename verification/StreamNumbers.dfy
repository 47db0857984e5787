/**
  How an output stream prints a number at its default precision: six significant digits, rounded, without
  trailing zeros, in fixed or scientific notation.
  */
module StreamNumbers {
  import opened Bytes
  import opened JsonNumerals
  import opened JsonParser
  import opened JsonPrinter

  const MIN_DIGITS: nat := 100000
  const MAX_DIGITS: nat := 1000000

  /** `m` times ten to the power `e`. */
  datatype Scientific = Scientific(m: nat, e: int)
  {
    function Value(): real {
      m as real * Pow10(e)
    }
  }

  // ----- Rounding to six digits -----

  lemma QuotientTenth(x: real, p: real)
    requires p > 0.0
    ensures x / (10.0 * p) == x / p / 10.0
  {
  }

  lemma QuotientAtLeast(x: real, p: real, c: real)
    requires p > 0.0
    ensures x >= c * p <==> x / p >= c
  {
    var q := x / p;
    assert x == q * p;
    if q >= c {
      ProductGrows(c, q, p);
    } else {
      ProductGrowsStrictly(q, c, p);
    }
  }

  lemma ProductGrows(a: real, b: real, p: real)
    requires a <= b && p >= 0.0
    ensures a * p <= b * p
  {
    assert (b - a) * p >= 0.0;
  }

  lemma ProductGrowsStrictly(a: real, b: real, p: real)
    requires a < b && p > 0.0
    ensures a * p < b * p
  {
    assert (b - a) * p > 0.0;
  }

  lemma UpStep(x: real, e: int)
    requires x >= Pow10(e + 6)
    ensures Pow10(e + 5) > 0.0 && Pow10(e + 6) > 0.0
    ensures 0 <= (x / Pow10(e + 6)).Floor < (x / Pow10(e + 5)).Floor
  {
    hide Pow10;
    PowStep(e + 5);
    PowIsPositive(e + 5);
    QuotientTenth(x, Pow10(e + 5));
    QuotientAtLeast(x, Pow10(e + 6), 1.0);
  }

  lemma DownStep(x: real, e: int)
    requires 0.0 < x < Pow10(e + 5)
    ensures 0 <= (Pow10(e + 5) / x).Floor < (Pow10(e + 6) / x).Floor
  {
    hide Pow10;
    PowStep(e + 5);
    var q := Pow10(e + 5) / x;
    QuotientAtLeast(Pow10(e + 5), x, 1.0);
    assert Pow10(e + 6) / x == 10.0 * q;
  }

  function Above(x: real, e: int): (r: int)
    requires x >= Pow10(e + 5)
    ensures Pow10(r + 5) <= x < Pow10(r + 6)
    decreases (PowIsPositive(e + 5); (x / Pow10(e + 5)).Floor)
  {
    if x < Pow10(e + 6) then e
    else
      UpStep(x, e);
      Above(x, e + 1)
  }

  function Below(x: real, e: int): (r: int)
    requires 0.0 < x < Pow10(e + 6)
    ensures Pow10(r + 5) <= x < Pow10(r + 6)
    decreases (Pow10(e + 6) / x).Floor
  {
    if Pow10(e + 5) <= x then e
    else
      DownStep(x, e);
      Below(x, e - 1)
  }

  /** The power of ten that leaves six digits before the point. */
  function Exponent(x: real): (e: int)
    requires x > 0.0
    ensures Pow10(e + 5) <= x < Pow10(e + 6)
  {
    if x >= Pow10(5) then Above(x, 0)
    else
      PowGrows(5, 6);
      Below(x, 0)
  }

  /** The nearest integer, the even one of two. */
  function Nearest(y: real): int {
    var below := y.Floor;
    var rest := y - below as real;
    if rest < 0.5 || (rest == 0.5 && below % 2 == 0) then below else below + 1
  }

  lemma Scaled(x: real, e: int)
    requires Pow10(e + 5) <= x < Pow10(e + 6)
    ensures Pow10(e) > 0.0 && MIN_DIGITS as real <= x / Pow10(e) < MAX_DIGITS as real
  {
    hide Pow10;
    PowIsPositive(e);
    PowSum(5, e);
    PowSum(6, e);
    PowOfNat(5);
    PowOfNat(6);
    assert Ten(5) == MIN_DIGITS && Ten(6) == MAX_DIGITS;
    QuotientAtLeast(x, Pow10(e), MIN_DIGITS as real);
    QuotientAtLeast(x, Pow10(e), MAX_DIGITS as real);
  }

  function Rounded(x: real): (d: Scientific)
    requires x > 0.0
    ensures MIN_DIGITS <= d.m < MAX_DIGITS
  {
    var e := Exponent(x);
    Scaled(x, e);
    var m := Nearest(x / Pow10(e));
    if m == MAX_DIGITS then Scientific(MIN_DIGITS, e + 1) else Scientific(m, e)
  }

  // ----- The text -----

  function Strip(d: Scientific): (r: Scientific)
    decreases d.m
  {
    if d.m > 0 && d.m % 10 == 0 then Strip(Scientific(d.m / 10, d.e + 1)) else d
  }

  /** `k` zeros put behind a number. */
  function Grown(m: nat, k: nat): nat
    decreases k
  {
    if k == 0 then m else Grown(10 * m, k - 1)
  }

  /** A number without its last `k` digits. */
  function Whole(m: nat, k: nat): nat {
    if k == 0 then m else Whole(m / 10, k - 1)
  }

  /** The last `k` digits. */
  function Padded(v: nat, k: nat): bytes {
    if k == 0 then [] else Padded(v / 10, k - 1) + [0x30 + v % 10]
  }

  function FixedNumeral(negative: bool, d: Scientific): Numeral {
    if d.e >= 0 then Numeral(negative, Digits(Grown(d.m, d.e)), false, [], [], [], [])
    else Numeral(negative, Digits(Whole(d.m, -d.e)), true, Padded(d.m, -d.e), [], [], [])
  }

  /** The exponent has at least two digits. */
  function ExponentDigits(n: nat): bytes {
    if n < 10 then [0x30] + Digits(n) else Digits(n)
  }

  function ScientificNumeral(negative: bool, d: Scientific, x: int): Numeral {
    var digits := Digits(d.m);
    Numeral(negative, digits[..1], |digits| > 1, digits[1..], [0x65], [if x < 0 then 0x2D else 0x2B],
            ExponentDigits(if x < 0 then -x else x))
  }

  /** What is printed for a number other than zero. */
  function Printed(n: real): Numeral
    requires n != 0.0
  {
    var d := Rounded(if n < 0.0 then -n else n);
    var x := d.e + 5;
    if -4 <= x < 6 then FixedNumeral(n < 0.0, Strip(d)) else ScientificNumeral(n < 0.0, Strip(d), x)
  }

  /** `os << n` */
  function Stream(n: real): bytes {
    if n == 0.0 then [0x30] else Printed(n).Text()
  }

  // ----- Reading it back -----

  lemma {:induction false} PaddedDigits(m: nat, k: nat)
    ensures |Padded(m, k)| == k && AllDigits(Padded(m, k))
  {
    if k > 0 {
      PaddedDigits(m / 10, k - 1);
    }
  }

  /** Cutting a number's digits in two and writing both parts writes the number. */
  lemma {:induction false} CutReads(m: nat, k: nat)
    ensures var s := Digits(Whole(m, k)) + Padded(m, k); AllDigits(s) && DigitsValue(s) == m
    decreases k
  {
    hide Digits;
    var s := Digits(Whole(m, k)) + Padded(m, k);
    if k == 0 {
      DigitsAreDigits(m);
      assert s == Digits(m);
    } else {
      CutReads(m / 10, k - 1);
      assert s == Digits(Whole(m / 10, k - 1)) + Padded(m / 10, k - 1) + [0x30 + m % 10];
      assert s[..|s| - 1] == Digits(Whole(m / 10, k - 1)) + Padded(m / 10, k - 1);
    }
  }

  lemma {:induction false} GrownValue(m: nat, k: nat)
    ensures Grown(m, k) as real == m as real * Pow10(k)
    decreases k
  {
    hide Pow10;
    if k == 0 {
      PowZero();
    } else {
      GrownValue(10 * m, k - 1);
      PowStep(k - 1);
      TenAcross(m as real, Pow10(k - 1));
      assert (10 * m) as real == 10.0 * m as real;
    }
  }

  lemma FixedReads(negative: bool, d: Scientific)
    ensures FixedNumeral(negative, d).Valid() && NumberShaped(FixedNumeral(negative, d).Text())
    ensures StrToD(FixedNumeral(negative, d).Text()) == if negative then -d.Value() else d.Value()
  {
    hide Digits, Padded, Pow10, StrToD, NumberShaped, DigitsValue, Grown, Whole, Numeral.Text;
    var n := FixedNumeral(negative, d);
    NoDigits();
    if d.e >= 0 {
      DigitsAreDigits(Grown(d.m, d.e));
      NumeralShape(n);
      assert n.whole + [] == n.whole;
      GrownValue(d.m, d.e);
      PowZero();
      TimesOne(DigitsValue(n.whole) as real, Pow10(0));
    } else {
      DigitsAreDigits(Whole(d.m, -d.e));
      PaddedDigits(d.m, -d.e);
      NumeralShape(n);
      CutReads(d.m, -d.e);
    }
  }

  lemma NoDigits()
    ensures DigitsValue([]) == 0
  {
  }

  lemma {:induction false} LeadingZero(d: bytes)
    requires AllDigits(d)
    ensures AllDigits([0x30] + d) && DigitsValue([0x30] + d) == DigitsValue(d)
    decreases |d|
  {
    var s := [0x30] + d;
    if d == [] {
      assert s[..0] == [];
    } else {
      LeadingZero(d[..|d| - 1]);
      assert s[..|s| - 1] == [0x30] + d[..|d| - 1];
    }
  }

  lemma ExponentReads(n: nat)
    ensures AllDigits(ExponentDigits(n)) && DigitsValue(ExponentDigits(n)) == n
  {
    DigitsAreDigits(n);
    LeadingZero(Digits(n));
  }

  lemma ScientificReads(negative: bool, d: Scientific, x: int)
    requires x == d.e + |Digits(d.m)| - 1
    ensures ScientificNumeral(negative, d, x).Valid() && NumberShaped(ScientificNumeral(negative, d, x).Text())
    ensures StrToD(ScientificNumeral(negative, d, x).Text()) == if negative then -d.Value() else d.Value()
  {
    hide Digits, Pow10, StrToD, NumberShaped, DigitsValue, ExponentDigits, Numeral.Text;
    var digits := Digits(d.m);
    DigitsAreDigits(d.m);
    ExponentReads(if x < 0 then -x else x);
    NumeralShape(ScientificNumeral(negative, d, x));
    assert digits[..1] + digits[1..] == digits;
  }

  lemma {:induction false} DigitCount(v: nat, k: nat)
    requires k > 0 && Ten(k - 1) <= v < Ten(k)
    ensures |Digits(v)| == k
    decreases k
  {
    if k > 1 {
      DigitCount(v / 10, k - 1);
    }
  }

  lemma {:induction false} StripKeepsValue(d: Scientific)
    requires d.m > 0
    ensures Strip(d).Value() == d.Value()
    ensures Strip(d).e + |Digits(Strip(d).m)| == d.e + |Digits(d.m)|
    decreases d.m
  {
    hide Pow10;
    if d.m % 10 == 0 {
      var next := Scientific(d.m / 10, d.e + 1);
      StripKeepsValue(next);
      PowStep(d.e);
      assert d.m as real == 10.0 * next.m as real;
      TenAcross(next.m as real, Pow10(d.e));
    }
  }

  lemma TenAcross(x: real, y: real)
    ensures x * (10.0 * y) == 10.0 * x * y
  {
  }

  /** A printed number is a number, and denotes the six digits it was rounded to. */
  lemma StreamReads(n: real)
    requires n != 0.0
    ensures Printed(n).Valid() && NumberShaped(Stream(n))
    ensures var v := Rounded(if n < 0.0 then -n else n).Value();
            StrToD(Stream(n)) == if n < 0.0 then -v else v
  {
    hide Rounded, Strip, FixedNumeral, ScientificNumeral, StrToD, NumberShaped, Scientific.Value, Numeral.Text;
    var d := Rounded(if n < 0.0 then -n else n);
    assert Ten(5) == MIN_DIGITS && Ten(6) == MAX_DIGITS;
    DigitCount(d.m, 6);
    StripKeepsValue(d);
    if -4 <= d.e + 5 < 6 {
      FixedReads(n < 0.0, Strip(d));
    } else {
      ScientificReads(n < 0.0, Strip(d), d.e + 5);
    }
  }

  // ----- The form of the text -----

  lemma {:induction false} StripLeavesNoZero(d: Scientific)
    requires d.m > 0
    ensures Strip(d).m % 10 != 0
    decreases d.m
  {
    if d.m % 10 == 0 {
      StripLeavesNoZero(Scientific(d.m / 10, d.e + 1));
    }
  }

  lemma LastDigit(m: nat, k: nat)
    requires m % 10 != 0
    ensures Digits(m)[|Digits(m)| - 1] != 0x30
    ensures k > 0 ==> Padded(m, k) != [] && Padded(m, k)[|Padded(m, k)| - 1] != 0x30
  {
  }

  /** One digit, or a first digit that is not zero. */
  predicate NoLeadingZero(d: bytes) {
    d != [] && (|d| == 1 || d[0] != 0x30)
  }

  lemma DigitsLead(n: nat)
    ensures NoLeadingZero(Digits(n)) && (n > 0 ==> Digits(n)[0] != 0x30)
    ensures |Digits(n)| == 1 <==> n < 10
  {
    DigitsAreDecimal(n);
  }

  lemma ValueBounds(d: Scientific)
    requires MIN_DIGITS <= d.m < MAX_DIGITS
    ensures Pow10(d.e + 5) <= d.Value() < Pow10(d.e + 6)
  {
    hide Pow10;
    var p := Pow10(d.e);
    PowIsPositive(d.e);
    PowersAt(d.e);
    ProductGrows(100000.0, d.m as real, p);
    ProductGrowsStrictly(d.m as real, 1000000.0, p);
  }

  lemma PowersAt(e: int)
    ensures Pow10(e + 5) == 100000.0 * Pow10(e) == Scientific(100000, e).Value()
    ensures Pow10(e + 6) == 1000000.0 * Pow10(e) == Scientific(1000000, e).Value()
  {
    hide Pow10;
    PowSum(5, e);
    PowSum(6, e);
    PowOfNat(5);
    PowOfNat(6);
    assert Ten(5) == 100000 && Ten(6) == 1000000;
  }

  lemma Limits()
    ensures Pow10(-4) == 0.0001 && Pow10(6) == 1000000.0
  {
    hide Pow10;
    PowOfNegative(4);
    PowOfNat(6);
    assert Ten(4) == 10000;
    assert Ten(6) == 100 * Ten(4);
  }

  lemma ScientificLimits(d: Scientific)
    requires MIN_DIGITS <= d.m < MAX_DIGITS
    ensures -4 <= d.e + 5 < 6 <==> 0.0001 <= d.Value() < 1000000.0
  {
    hide Pow10, Scientific.Value;
    ValueBounds(d);
    Limits();
    if d.e + 5 < -4 {
      PowGrows(d.e + 6, -4);
    } else {
      PowGrows(-4, d.e + 5);
    }
    if d.e + 5 < 6 {
      PowGrows(d.e + 6, 6);
    } else {
      PowGrows(6, d.e + 5);
    }
  }

  /**
    A number is printed in scientific notation exactly when what it is rounded to is below 0.0001 or not below a
    million; no part begins with a zero it does not need, and no fraction ends in one.
    */
  lemma StreamForm(n: real)
    requires n != 0.0
    ensures var r, t := Rounded(if n < 0.0 then -n else n).Value(), Printed(n);
            && Stream(n) == t.Text() && (t.negative <==> n < 0.0)
            && (t.letter != [] <==> r < 0.0001 || r >= 1000000.0)
            && NoLeadingZero(t.whole)
            && (t.point <==> t.fraction != []) && (t.point ==> t.fraction[|t.fraction| - 1] != 0x30)
            && (t.letter != [] ==> t.letter == [0x65] && |t.whole| == 1 && t.whole[0] != 0x30 && |t.sign| == 1)
            && (t.letter != [] ==> |t.exponent| >= 2 && (|t.exponent| == 2 || t.exponent[0] != 0x30))
  {
    hide Rounded, Strip, Digits, Padded, Numeral.Text, Scientific.Value;
    var d := Rounded(if n < 0.0 then -n else n);
    ScientificLimits(d);
    StripLeavesNoZero(d);
    var s := Strip(d);
    LastDigit(s.m, if s.e < 0 then -s.e else 0);
    if -4 <= d.e + 5 < 6 {
      DigitsLead(if s.e >= 0 then Grown(s.m, s.e) else Whole(s.m, -s.e));
    } else {
      var x: nat := if d.e + 5 < 0 then -(d.e + 5) else d.e + 5;
      DigitsLead(s.m);
      DigitsLead(x);
    }
  }

  // ----- The digits are the nearest -----

  function Distance(x: real, y: real): real {
    if x < y then y - x else x - y
  }

  lemma DistanceTimes(x: real, v: real, y: real, k: real, p: real)
    requires p > 0.0 && x == y * p && v == k * p
    ensures Distance(x, v) == Distance(y, k) * p
  {
    if y < k {
      ProductGrowsStrictly(y, k, p);
    } else {
      ProductGrows(k, y, p);
    }
  }

  /** The distance between a number and a decimal, in units of its last digit. */
  lemma UnitDistance(x: real, d: Scientific)
    ensures Pow10(d.e) > 0.0
    ensures Distance(x, d.Value()) == Distance(x / Pow10(d.e), d.m as real) * Pow10(d.e)
  {
    hide Distance, Pow10;
    PowIsPositive(d.e);
    var p := Pow10(d.e);
    DistanceTimes(x, d.Value(), x / p, d.m as real, p);
  }

  /** No whole number of units is nearer. */
  lemma NearestUnits(x: real, d: Scientific)
    requires x > 0.0 && d.e == Exponent(x)
    ensures Distance(x, Rounded(x).Value()) <= Distance(x, d.Value())
  {
    hide Pow10, Exponent, Distance, Rounded, Nearest, Scientific.Value;
    PowIsPositive(d.e);
    var p := Pow10(d.e);
    var r := RoundedValue(x, d.e);
    UnitDistance(x, r);
    UnitDistance(x, d);
    NearestDistance(x / p, d.m);
    ProductGrows(Distance(x / p, r.m as real), Distance(x / p, d.m as real), p);
  }

  lemma NearestDistance(y: real, k: int)
    ensures Distance(y, Nearest(y) as real) <= Distance(y, k as real)
  {
    var below := y.Floor;
    assert below as real <= y < below as real + 1.0;
    if k <= below {
      assert k as real <= below as real;
    } else {
      assert k as real >= (below + 1) as real;
    }
  }

  lemma ExponentBounds(x: real)
    requires x > 0.0
    ensures Pow10(Exponent(x) + 5) <= x < Pow10(Exponent(x) + 6)
  {
    hide Pow10;
  }

  lemma RoundedValue(x: real, e: int) returns (r: Scientific)
    requires x > 0.0 && e == Exponent(x) && Pow10(e) > 0.0
    ensures r.e == e && r.m == Nearest(x / Pow10(e)) && Rounded(x).Value() == r.Value()
  {
    hide Pow10, Exponent, Scientific.Value;
    ExponentBounds(x);
    Scaled(x, e);
    r := Scientific(Nearest(x / Pow10(e)), e);
    PowersAt(e);
    PowersAt(e + 1);
  }

  lemma Nearer(x: real, r: real, a: real, b: real)
    requires Distance(x, r) <= Distance(x, a)
    requires b <= a <= x || x <= a <= b
    ensures Distance(x, r) <= Distance(x, b)
  {
  }

  /** No decimal of six digits is nearer to a number than the one that is printed for it. */
  lemma RoundedIsNearest(x: real, d: Scientific)
    requires x > 0.0 && MIN_DIGITS <= d.m < MAX_DIGITS
    ensures Distance(x, Rounded(x).Value()) <= Distance(x, d.Value())
  {
    hide Pow10, Exponent, Rounded, Distance, Scientific.Value;
    var e := Exponent(x);
    ExponentBounds(x);
    PowersAt(e);
    ValueBounds(d);
    if d.e < e {
      PowGrows(d.e + 6, e + 5);
      NearestUnits(x, Scientific(100000, e));
      Nearer(x, Rounded(x).Value(), Scientific(100000, e).Value(), d.Value());
    } else if d.e > e {
      PowGrows(e + 6, d.e + 5);
      NearestUnits(x, Scientific(1000000, e));
      Nearer(x, Rounded(x).Value(), Scientific(1000000, e).Value(), d.Value());
    } else {
      NearestUnits(x, d);
    }
  }

  /** Half-way between two such decimals, the one with the even last digit is printed. */
  lemma TiesGoToEven(x: real, e: int, k: nat)
    requires MIN_DIGITS <= k < MAX_DIGITS && x == (k as real + 0.5) * Pow10(e)
    ensures x > 0.0 && Rounded(x).Value() == Scientific(if k % 2 == 0 then k else k + 1, e).Value()
  {
    hide Pow10, Exponent, Nearest, Rounded, Scientific.Value;
    UnitBounds(x, e, k as real + 0.5);
    ExponentBounds(x);
    OneExponent(x, e, Exponent(x));
    PowIsPositive(e);
    QuotientOf(x, k as real + 0.5, Pow10(e));
    NearestHalf(k);
    var r := RoundedValue(x, e);
    assert r == Scientific(if k % 2 == 0 then k else k + 1, e);
  }

  lemma UnitBounds(x: real, e: int, y: real)
    requires 100000.0 <= y < 1000000.0 && x == y * Pow10(e)
    ensures 0.0 < Pow10(e + 5) <= x < Pow10(e + 6)
  {
    hide Pow10;
    PowIsPositive(e);
    PowersAt(e);
    ProductGrows(100000.0, y, Pow10(e));
    ProductGrowsStrictly(y, 1000000.0, Pow10(e));
  }

  lemma QuotientOf(x: real, y: real, p: real)
    requires p > 0.0 && x == y * p
    ensures x / p == y
  {
  }

  lemma NearestHalf(k: nat)
    ensures Nearest(k as real + 0.5) == if k % 2 == 0 then k else k + 1
  {
    assert (k as real + 0.5).Floor == k;
  }

  lemma OneExponent(x: real, e: int, e': int)
    requires Pow10(e + 5) <= x < Pow10(e + 6) && Pow10(e' + 5) <= x < Pow10(e' + 6)
    ensures e == e'
  {
    hide Pow10;
    if e < e' {
      PowGrows(e + 6, e' + 5);
    } else if e' < e {
      PowGrows(e' + 6, e + 5);
    }
  }
}
