/**
  The round trip for values whose numbers are doubles. A double is a real number that rounding to the nearest
  double leaves alone; `strtod` reads a decimal text as the nearest double.
  */
module Doubles {
  import opened Bytes
  import opened JsonGrammar
  import opened JsonNumerals
  import opened JsonParser
  import opened JsonPrinter
  import opened JsonRoundTrip
  import opened StreamNumbers

  // ----- Rounding -----

  /** Rounding to the nearest double, as far as it matters here: idempotent, odd, and right to seven digits. */
  ghost predicate IsRounding(fl: real -> real) {
    && (forall x, y | y == fl(x) :: fl(y) == y)
    && (forall x, y | x + y == 0.0 :: fl(x) + fl(y) == 0.0)
    && (forall x | x > 0.0 :: -x <= 10000000.0 * (fl(x) - x) <= x)
  }

  /** Numbers that need no rounding are a special case. */
  lemma ExactIsRounding()
    ensures IsRounding(x => x)
  {
  }

  /** The double nearest to a decimal of at most six significant digits. */
  ghost predicate IsSixDigitDouble(n: real, fl: real -> real) {
    exists d: Scientific :: d.m < MAX_DIGITS && (n == fl(d.Value()) || n == -fl(d.Value()))
  }

  lemma ExponentIs(x: real, e: int)
    requires x > 0.0 && Pow10(e + 5) <= x < Pow10(e + 6)
    ensures Exponent(x) == e
  {
    hide Pow10, Exponent;
    var E := Exponent(x);
    if E < e {
      PowGrows(E + 6, e + 5);
    } else if E > e {
      PowGrows(e + 6, E + 5);
    }
  }

  lemma NearestIs(y: real, m: int)
    requires -0.5 < y - m as real < 0.5
    ensures Nearest(y) == m
  {
  }

  lemma QuotientTimes(x: real, p: real, y: real)
    requires p > 0.0 && x / p == y
    ensures y * p == x
  {
  }

  lemma QuotientNear(x: real, p: real, m: real, c: real)
    requires p > 0.0 && -c * p < x - m * p < c * p
    ensures -c < x / p - m < c
  {
    var y := x / p;
    QuotientTimes(x, p, y);
    if y - m >= c {
      ProductGrows(c, y - m, p);
    } else if y - m <= -c {
      ProductGrows(y - m, -c, p);
    }
  }

  /** A number close to one of six digits, in the same decade, is rounded to it. */
  lemma RoundedNear(x: real, v: real, m: nat, e: int)
    requires MIN_DIGITS <= m < MAX_DIGITS && x > 0.0 && Pow10(e + 5) <= x && Pow10(e) > 0.0
    requires v == m as real * Pow10(e) && -0.5 * Pow10(e) < x - v < 0.5 * Pow10(e)
    ensures Rounded(x) == Scientific(m, e)
  {
    hide Pow10, Exponent, Nearest;
    SixDigitBounds(m, Pow10(e), v);
    PowersOfFiveAndSix(e);
    ExponentIs(x, e);
    QuotientNear(x, Pow10(e), m as real, 0.5);
    NearestIs(x / Pow10(e), m);
  }

  lemma LeastProduct(a: real, b: real, p: real, v: real)
    requires a <= b && p >= 0.0 && v == b * p
    ensures a * p <= v
  {
    ProductGrows(a, b, p);
  }

  lemma MostProduct(a: real, b: real, p: real, v: real)
    requires a <= b && p >= 0.0 && v == a * p
    ensures v <= b * p
  {
    ProductGrows(a, b, p);
  }

  lemma SixDigitBounds(m: nat, p: real, v: real)
    requires MIN_DIGITS <= m < MAX_DIGITS && p > 0.0 && v == m as real * p
    ensures 100000.0 * p <= v <= 999999.0 * p
    ensures m > MIN_DIGITS ==> 100001.0 * p <= v
  {
    var x := m as real;
    LeastProduct(100000.0, x, p, v);
    MostProduct(x, 999999.0, p, v);
    if m > MIN_DIGITS {
      assert x >= 100001.0;
      LeastProduct(100001.0, x, p, v);
    }
  }

  lemma PowersOfFiveAndSix(e: int)
    ensures Pow10(e) > 0.0 && Pow10(e + 5) == 100000.0 * Pow10(e) && Pow10(e + 6) == 1000000.0 * Pow10(e)
  {
    hide Pow10;
    PowIsPositive(e);
    PowSum(5, e);
    PowSum(6, e);
    PowOfNat(5);
    PowOfNat(6);
    assert Ten(5) == MIN_DIGITS && Ten(6) == MAX_DIGITS;
  }

  /** Just below a power of ten it is rounded up to that. */
  lemma RoundedUp(x: real, e: int)
    requires x > 0.0 && Pow10(e + 5) > 0.0 && 0.0 < Pow10(e + 5) - x && 10000000.0 * (Pow10(e + 5) - x) <= Pow10(e + 5)
    ensures Rounded(x) == Scientific(MIN_DIGITS, e)
  {
    hide Pow10, Exponent, Nearest;
    PowStep(e + 4);
    ExponentIs(x, e - 1);
    PowersOfFiveAndSix(e - 1);
    QuotientNear(x, Pow10(e - 1), MAX_DIGITS as real, 0.5);
    NearestIs(x / Pow10(e - 1), MAX_DIGITS);
  }

  /** A number right to seven digits is rounded to the six-digit one it comes from. */
  lemma RoundedRecovers(x: real, v: real, m: nat, e: int)
    requires MIN_DIGITS <= m < MAX_DIGITS && v == m as real * Pow10(e) && v > 0.0 && x > 0.0
    requires -v <= 10000000.0 * (x - v) <= v
    ensures Rounded(x) == Scientific(m, e)
  {
    hide Pow10, Rounded;
    PowersOfFiveAndSix(e);
    SixDigitBounds(m, Pow10(e), v);
    if x >= Pow10(e + 5) {
      RoundedNear(x, v, m, e);
    } else {
      RoundedUp(x, e);
    }
  }

  /** A number of at most six digits is rounded to itself. */
  lemma RoundedIsExact(x: real, d: Scientific)
    requires x > 0.0 && d.m < MAX_DIGITS && x == d.Value()
    ensures Rounded(x).Value() == x
  {
    hide Pow10, Grown, Exponent, Rounded, Scientific.Value;
    var e := Exponent(x);
    NoFiner(x, d, e);
    ScaledIsInteger(x, d, e);
    RoundedWhole(x, Grown(d.m, d.e - e), e);
    ValueOfScaled(x, Grown(d.m, d.e - e), e);
  }

  /** It needs no finer exponent than the one it is rounded at. */
  lemma NoFiner(x: real, d: Scientific, e: int)
    requires x == d.Value() && d.m < MAX_DIGITS && x >= Pow10(e + 5)
    ensures d.e >= e
  {
    hide Pow10;
    PowSum(6, d.e);
    PowOfNat(6);
    assert Ten(6) == MAX_DIGITS;
    PowIsPositive(d.e);
    ProductGrowsStrictly(d.m as real, MAX_DIGITS as real, Pow10(d.e));
    if d.e < e {
      PowGrows(d.e + 6, e + 5);
    }
  }

  lemma ScaledIsInteger(x: real, d: Scientific, e: int)
    requires x == d.Value() && d.e >= e
    ensures Pow10(e) > 0.0
    ensures x / Pow10(e) == Grown(d.m, d.e - e) as real
  {
    hide Pow10, Grown;
    var k: nat := d.e - e;
    PowIsPositive(e);
    PowSum(k, e);
    GrownValue(d.m, k);
    Regroup(d.m as real, Pow10(k), Pow10(e));
    QuotientOfProduct(Grown(d.m, k) as real, Pow10(e));
  }

  lemma RoundedWhole(x: real, m: nat, e: int)
    requires x > 0.0 && e == Exponent(x) && Pow10(e) > 0.0 && x / Pow10(e) == m as real
    ensures Rounded(x) == Scientific(m, e)
  {
    hide Pow10, Exponent, Nearest;
    Scaled(x, e);
    NearestIs(x / Pow10(e), m);
  }

  lemma ValueOfScaled(x: real, m: nat, e: int)
    requires Pow10(e) > 0.0 && x / Pow10(e) == m as real
    ensures Scientific(m, e).Value() == x
  {
    hide Pow10;
    QuotientTimes(x, Pow10(e), m as real);
  }

  lemma Regroup(x: real, y: real, z: real)
    ensures x * (y * z) == x * y * z
  {
  }

  lemma QuotientOfProduct(y: real, p: real)
    requires p > 0.0
    ensures y * p / p == y
  {
  }

  // ----- Which numbers keep their value -----

  lemma RoundingKeepsSign(fl: real -> real, v: real)
    requires IsRounding(fl)
    ensures fl(0.0) == 0.0
    ensures v > 0.0 ==> fl(v) > 0.0 && -v <= 10000000.0 * (fl(v) - v) <= v
  {
    assert fl(0.0) + fl(0.0) == 0.0;
  }

  /** The double nearest to a decimal of at most six digits is printed as that decimal. */
  lemma SixDigitsRecovered(fl: real -> real, d: Scientific)
    requires IsRounding(fl) && d.m < MAX_DIGITS && d.Value() > 0.0
    ensures fl(d.Value()) > 0.0 && Rounded(fl(d.Value())).Value() == d.Value()
  {
    hide Rounded, Pow10, IsRounding;
    var v := d.Value();
    RoundingKeepsSign(fl, v);
    RoundedIsExact(v, d);
    var six := Rounded(v);
    RoundedRecovers(fl(v), v, six.m, six.e);
  }

  lemma ValueIsNotNegative(d: Scientific)
    ensures d.Value() >= 0.0
  {
    hide Pow10;
    PowIsPositive(d.e);
    ProductGrows(0.0, d.m as real, Pow10(d.e));
  }

  /** Printing and reading keeps a double exactly when it is the nearest to some decimal of at most six digits. */
  lemma StreamIsExact(n: real, fl: real -> real)
    requires n != 0.0 && IsRounding(fl)
    ensures fl(StrToD(Stream(n))) == n <==> IsSixDigitDouble(n, fl)
  {
    hide Stream, StrToD, Rounded, Pow10, NumberShaped, Scientific.Value;
    StreamReads(n);
    var x := if n < 0.0 then -n else n;
    var printed := Rounded(x);
    assert fl(-printed.Value()) + fl(printed.Value()) == 0.0;
    if IsSixDigitDouble(n, fl) {
      var d: Scientific :| d.m < MAX_DIGITS && (n == fl(d.Value()) || n == -fl(d.Value()));
      RoundingKeepsSign(fl, d.Value());
      ValueIsNotNegative(d);
      SixDigitsRecovered(fl, d);
    }
  }

  // ----- The round trip -----

  /** A value as `strtod` reads it: every number is the nearest double. */
  ghost function InDoubles(v: Value, fl: real -> real): Value
    decreases v, 1
  {
    match v
    case Number(n) => Number(fl(n))
    case Array(items) => Array(AllInDoubles(items, fl))
    case Object(members) => Object(MembersInDoubles(members, fl))
    case _ => v
  }

  ghost function AllInDoubles(items: seq<Value>, fl: real -> real): (r: seq<Value>)
    ensures |r| == |items|
    decreases items, 0
  {
    if items == [] then [] else [InDoubles(items[0], fl)] + AllInDoubles(items[1..], fl)
  }

  ghost function MembersInDoubles(members: seq<Member>, fl: real -> real): (r: seq<Member>)
    ensures |r| == |members|
    decreases members, 0
  {
    if members == [] then []
    else [Member(members[0].key, InDoubles(members[0].value, fl))] + MembersInDoubles(members[1..], fl)
  }

  /** Each number is an integer below the printer's limit or the nearest double to a decimal of six digits. */
  ghost predicate Kept(v: Value, fl: real -> real)
    decreases v, 1
  {
    match v
    case Number(n) => IsInteger(n) || IsSixDigitDouble(n, fl)
    case Array(items) => AllKept(items, fl)
    case Object(members) => MembersKept(members, fl)
    case _ => true
  }

  ghost predicate AllKept(items: seq<Value>, fl: real -> real)
    decreases items, 0
  {
    items == [] || (Kept(items[0], fl) && AllKept(items[1..], fl))
  }

  ghost predicate MembersKept(members: seq<Member>, fl: real -> real)
    decreases members, 0
  {
    members == [] || (Kept(members[0].value, fl) && MembersKept(members[1..], fl))
  }

  lemma NumberIsKept(n: real, fl: real -> real)
    requires IsRounding(fl)
    ensures NumberShaped(NumberText(n, Stream))
    ensures n == fl(n) ==> (fl(StrToD(NumberText(n, Stream))) == n <==> IsInteger(n) || IsSixDigitDouble(n, fl))
  {
    hide Stream, StrToD, NumberShaped, IsSixDigitDouble, IsRounding;
    if IsInteger(n) {
      DecimalReads(n.Floor);
    } else {
      assert n != 0.0;
      StreamReads(n);
      StreamIsExact(n, fl);
    }
  }

  lemma {:induction false} ValueIsKept(v: Value, fl: real -> real)
    requires IsRounding(fl)
    ensures Printable(v, Stream)
    ensures InDoubles(v, fl) == v ==> (InDoubles(Reread(v, Stream), fl) == v <==> Kept(v, fl))
    decreases v, 1
  {
    hide Stream, StrToD, NumberShaped, NumberText, IsInteger, IsSixDigitDouble, IsRounding;
    match v
    case Number(n) => NumberIsKept(n, fl);
    case Array(items) => ElementsAreKept(items, fl);
    case Object(members) => MembersAreKept(members, fl);
    case _ =>
  }

  lemma {:induction false} ElementsAreKept(items: seq<Value>, fl: real -> real)
    requires IsRounding(fl)
    ensures AllPrintable(items, Stream)
    ensures AllInDoubles(items, fl) == items ==>
              (AllInDoubles(RereadAll(items, Stream), fl) == items <==> AllKept(items, fl))
    decreases items, 0
  {
    hide Stream, Printable, Reread, Kept, InDoubles, IsRounding;
    if items != [] {
      ValueIsKept(items[0], fl);
      ElementsAreKept(items[1..], fl);
      var r := RereadAll(items, Stream);
      assert r[0] == Reread(items[0], Stream) && r[1..] == RereadAll(items[1..], Stream);
      SameList(AllInDoubles(r, fl), items);
      SameList(AllInDoubles(items, fl), items);
    }
  }

  lemma SameList<T>(a: seq<T>, b: seq<T>)
    requires |a| == |b| > 0
    ensures a == b <==> a[0] == b[0] && a[1..] == b[1..]
  {
    assert a == [a[0]] + a[1..] && b == [b[0]] + b[1..];
  }

  lemma {:induction false} MembersAreKept(members: seq<Member>, fl: real -> real)
    requires IsRounding(fl)
    ensures MembersPrintable(members, Stream)
    ensures MembersInDoubles(members, fl) == members ==>
              (MembersInDoubles(RereadMembers(members, Stream), fl) == members <==> MembersKept(members, fl))
    decreases members, 0
  {
    hide Stream, Printable, Reread, Kept, InDoubles, IsRounding;
    if members != [] {
      ValueIsKept(members[0].value, fl);
      MembersAreKept(members[1..], fl);
      var r := RereadMembers(members, Stream);
      assert r[0] == RereadMember(members[0], Stream) && r[1..] == RereadMembers(members[1..], Stream);
      SameList(MembersInDoubles(r, fl), members);
      SameList(MembersInDoubles(members, fl), members);
    }
  }

  /**
    Every value of doubles can be printed and parsed again, in both layouts, and comes back unchanged exactly
    when each of its numbers is a small enough integer or the nearest double to a decimal of six digits.
    */
  lemma EveryValueParses(v: Value, pretty: bool, fl: real -> real)
    requires IsRounding(fl) && InDoubles(v, fl) == v
    ensures ParseText(Dump(v, pretty, 0, Stream)).Ok?
    ensures InDoubles(ParseText(Dump(v, pretty, 0, Stream)).value, fl) == v <==> Kept(v, fl)
  {
    hide ParseText, Dump, Stream, Kept, Printable, Reread, InDoubles, IsRounding;
    ValueIsKept(v, fl);
    PrintedParses(v, pretty, Stream);
  }

  /** The double nearest to 123456.7 is printed as 123457, and comes back as that. */
  lemma SeventhDigitIsLost(pretty: bool, fl: real -> real)
    requires IsRounding(fl)
    ensures var v := Number(fl(1234567.0 / 10.0));
            && InDoubles(v, fl) == v && ParseText(Dump(v, pretty, 0, Stream)).Ok?
            && InDoubles(ParseText(Dump(v, pretty, 0, Stream)).value, fl) != v
  {
    hide ParseText, Dump, Stream, Rounded, StrToD, NumberShaped, Printed, Numeral.Valid, IsSixDigitDouble;
    var n := fl(1234567.0 / 10.0);
    var six := Scientific(123457, 0);
    PowZero();
    assert six.Value() == 123457.0;
    assert fl(123457.0) > n;
    RoundedHere(n);
    StreamReads(n);
    StreamIsExact(n, fl);
    assert 123456.0 < n < 123457.0;
    EveryValueParses(Number(n), pretty, fl);
  }

  lemma RoundedHere(n: real)
    requires 123456.6 < n < 123456.8
    ensures Rounded(n) == Scientific(123457, 0)
  {
    hide Pow10;
    PowZero();
    PowersOfFiveAndSix(0);
    RoundedNear(n, 123457.0, 123457, 0);
  }

  // ----- Numbers that are no reals -----

  const INF: bytes := [0x69, 0x6E, 0x66]
  const NAN: bytes := [0x6E, 0x61, 0x6E]

  lemma SignAlone(s: bytes, p: nat)
    requires p + 1 < |s| && s[p] == MINUS && !IsDigit(s[p + 1]) && s[p + 1] != DOT && !IsE(s[p + 1])
    ensures ParseNumber(s, p).Fail?
  {
    assert s[p..p + 1] == [MINUS];
  }

  lemma NotNull(s: bytes, p: nat)
    requires p + 1 < |s| && s[p + 1] == NAN[1]
    ensures !At(s, p, NULL_TEXT)
  {
    if At(s, p, NULL_TEXT) {
      ByteAt(s, p, NULL_TEXT, 1);
    }
  }

  /** What the stream prints for an infinity or a NaN, with or without a sign, is refused wherever it stands. */
  lemma NotFiniteIsRefused(s: bytes, p: nat, text: bytes)
    requires text == INF || text == [MINUS] + INF || text == NAN || text == [MINUS] + NAN
    requires At(s, p, text)
    ensures ParseValue(s, p).Fail?
  {
    hide ParseNumber, ParseObject, ParseArray, ParseString, At;
    ByteAt(s, p, text, 0);
    ByteAt(s, p, text, 1);
    SkipNothing(s, p);
    if s[p] == MINUS {
      SignAlone(s, p);
    } else if s[p] == NAN[0] {
      NotNull(s, p);
    }
  }
}
