/**
  The URL-safe base64 of src/crypto.cpp (RFC 4648, section 5), without padding. What the codec means is
  stated on bit strings, most significant bit first.
  */
module Base64 {
  import opened Bytes
  import opened Words

  type sextet = v: nat | v < 64

  const PADDING: byte := 0x3D

  // ----- Bit strings -----

  /** The lowest `n` bits of a number. */
  function ToBits(v: nat, n: nat): (b: seq<bool>)
    ensures |b| == n
  {
    if n == 0 then [] else ToBits(v / 2, n - 1) + [v % 2 == 1]
  }

  function FromBits(b: seq<bool>): nat {
    if b == [] then 0 else FromBits(b[..|b| - 1]) * 2 + if b[|b| - 1] then 1 else 0
  }

  /** `v >> n` */
  function Shift(v: nat, n: nat): nat {
    if n == 0 then v else Shift(v / 2, n - 1)
  }

  /** The values of a list, `n` bits each, one after the other. */
  function Bits(values: seq<nat>, n: nat): (b: seq<bool>)
    ensures |b| == |values| * n
  {
    if values == [] then []
    else
      assert |values| * n == n + |values[1..]| * n;
      ToBits(values[0], n) + Bits(values[1..], n)
  }

  function Zeros(n: nat): seq<bool> {
    seq(n, _ => false)
  }

  lemma {:induction false} BitsAppend(a: seq<nat>, b: seq<nat>, n: nat)
    ensures Bits(a + b, n) == Bits(a, n) + Bits(b, n)
  {
    if a == [] {
      assert a + b == b;
    } else {
      assert (a + b)[1..] == a[1..] + b;
      BitsAppend(a[1..], b, n);
    }
  }

  lemma BitsOfOne(v: nat, n: nat)
    ensures Bits([v], n) == ToBits(v, n)
  {
    assert [v][1..] == [];
  }

  /** Cutting a bit string in two is shifting. */
  lemma {:induction false} ToBitsSplit(v: nat, n: nat, m: nat)
    ensures ToBits(v, n + m) == ToBits(Shift(v, m), n) + ToBits(v, m)
    decreases m
  {
    if m > 0 {
      ToBitsSplit(v / 2, n, m - 1);
      assert ToBits(v, n + m) == ToBits(v / 2, n + m - 1) + [v % 2 == 1];
    }
  }

  predicate DividesBy(m: nat, n: nat) {
    m > 0 && (n == 0 || (m % 2 == 0 && DividesBy(m / 2, n - 1)))
  }

  lemma TwiceProduct(q: nat, m: nat)
    ensures q * (2 * m) == 2 * (q * m)
  {
  }

  lemma HalfOfSum(v: nat, k: nat, r: nat)
    requires v == 2 * k + r
    ensures v / 2 == k + r / 2 && v % 2 == r % 2
  {
  }

  lemma HalfMod(v: nat, m: nat)
    requires m > 0
    ensures v % (2 * m) / 2 == v / 2 % m
    ensures v % (2 * m) % 2 == v % 2
  {
    HalfOfParts(v, m, v / (2 * m), v % (2 * m));
  }

  lemma HalfOfParts(v: nat, m: nat, q: nat, r: nat)
    requires m > 0 && r < 2 * m && v == q * (2 * m) + r
    ensures v / 2 % m == r / 2 && v % 2 == r % 2
  {
    TwiceProduct(q, m);
    HalfOfSum(v, q * m, r);
    ModOfSum(q, m, r / 2);
  }

  /** The low bits do not see what a wrap-around takes away. */
  lemma {:induction false} ToBitsMod(v: nat, m: nat, n: nat)
    requires DividesBy(m, n)
    ensures ToBits(v % m, n) == ToBits(v, n)
    decreases n
  {
    if n > 0 {
      HalfMod(v, m / 2);
      assert m == 2 * (m / 2);
      ToBitsMod(v / 2, m / 2, n - 1);
    }
  }

  lemma {:induction false} FromToBits(v: nat, n: nat, m: nat)
    requires v < m && DividesBy(m, n) && m == Power2(n)
    ensures FromBits(ToBits(v, n)) == v
    decreases n
  {
    if n > 0 {
      var b := ToBits(v, n);
      assert b[..n - 1] == ToBits(v / 2, n - 1);
      FromToBits(v / 2, n - 1, m / 2);
    }
  }

  function Power2(n: nat): nat {
    if n == 0 then 1 else 2 * Power2(n - 1)
  }

  // ----- Encoding -----

  /** Three bytes in one word. */
  function Word(a: nat, b: nat, c: nat): nat {
    a * 65536 + b * 256 + c
  }

  /** The sextets of three bytes, as the encoder shifts them out. */
  function SextetsOf(a: byte, b: byte, c: byte): (s: seq<sextet>)
    ensures |s| == 4
  {
    var v := Word(a, b, c);
    [v / 262144 % 64, v / 4096 % 64, v / 64 % 64, v % 64]
  }

  function EncodeValues(d: bytes): seq<sextet> {
    if |d| >= 3 then SextetsOf(d[0], d[1], d[2]) + EncodeValues(d[3..])
    else if |d| == 2 then SextetsOf(d[0], d[1], 0)[..3]
    else if |d| == 1 then SextetsOf(d[0], 0, 0)[..2]
    else []
  }

  function Alphabet(v: sextet): byte {
    if v < 26 then 0x41 + v
    else if v < 52 then 0x61 + v - 26
    else if v < 62 then 0x30 + v - 52
    else if v == 62 then 0x2D
    else 0x5F
  }

  function Spell(values: seq<sextet>): bytes {
    if values == [] then [] else [Alphabet(values[0])] + Spell(values[1..])
  }

  function Encode(d: bytes): bytes {
    Spell(EncodeValues(d))
  }

  lemma {:induction false} SpellAppend(a: seq<sextet>, b: seq<sextet>)
    ensures Spell(a + b) == Spell(a) + Spell(b)
  {
    if a == [] {
      assert a + b == b;
    } else {
      assert (a + b)[1..] == a[1..] + b;
      SpellAppend(a[1..], b);
    }
  }

  /** Zero bits added at the end so that the last group is a whole sextet. */
  function PadBits(n: nat): nat {
    if n % 3 == 1 then 4 else if n % 3 == 2 then 2 else 0
  }

  lemma {:induction false} ShiftTwice(v: nat, n: nat, m: nat)
    ensures Shift(v, n + m) == Shift(Shift(v, n), m)
    decreases n
  {
    if n > 0 {
      ShiftTwice(v / 2, n - 1, m);
    }
  }

  lemma ShiftSix(v: nat)
    ensures Shift(v, 6) == v / 64
  {
    assert Shift(v, 6) == Shift(v / 2, 5) == Shift(v / 4, 4) == Shift(v / 8, 3);
    assert Shift(v / 8, 3) == Shift(v / 16, 2) == Shift(v / 32, 1) == Shift(v / 64, 0);
  }

  lemma ShiftEight(v: nat)
    ensures Shift(v, 8) == v / 256
  {
    ShiftSix(v);
    ShiftTwice(v, 6, 2);
    assert Shift(v / 64, 2) == Shift(v / 128, 1) == Shift(v / 256, 0);
  }

  lemma TwentyFourAsBytes(a: byte, b: byte, c: byte)
    ensures ToBits(Word(a, b, c), 24) == ToBits(a, 8) + ToBits(b, 8) + ToBits(c, 8)
  {
    var v, w: nat := Word(a, b, c), a * 256 + b;
    ToBitsSplit(v, 16, 8);
    ShiftEight(v);
    assert v / 256 == w && v % 256 == c && w / 256 == a && w % 256 == b;
    ToBitsMod(v, 256, 8);
    ToBitsSplit(w, 8, 8);
    ShiftEight(w);
    ToBitsMod(w, 256, 8);
  }

  lemma TwentyFourAsSextets(v: nat)
    ensures ToBits(v, 24) ==
            ToBits(v / 262144 % 64, 6) + ToBits(v / 4096 % 64, 6) + ToBits(v / 64 % 64, 6) + ToBits(v % 64, 6)
  {
    var x, y, z := v / 64, v / 4096, v / 262144;
    assert y == x / 64 && z == y / 64;
    ToBitsSplit(v, 18, 6);
    ShiftSix(v);
    ToBitsSplit(x, 12, 6);
    ShiftSix(x);
    ToBitsSplit(y, 6, 6);
    ShiftSix(y);
    ToBitsMod(v, 64, 6);
    ToBitsMod(x, 64, 6);
    ToBitsMod(y, 64, 6);
    ToBitsMod(z, 64, 6);
  }

  lemma BitsOfThree(x: nat, y: nat, z: nat, n: nat)
    ensures Bits([x, y, z], n) == ToBits(x, n) + ToBits(y, n) + ToBits(z, n)
  {
    assert [x, y, z][1..] == [y, z] && [y, z][1..] == [z];
    BitsOfOne(z, n);
    assert Bits([y, z], n) == ToBits(y, n) + ToBits(z, n);
  }

  /** Four sextets hold the bits of three bytes. */
  lemma SextetsHoldBytes(a: byte, b: byte, c: byte)
    ensures Bits(SextetsOf(a, b, c), 6) == Bits([a, b, c], 8)
  {
    hide ToBits;
    var s := SextetsOf(a, b, c);
    TwentyFourAsBytes(a, b, c);
    TwentyFourAsSextets(Word(a, b, c));
    BitsOfThree(a, b, c, 8);
    BitsAppend(s[..3], [s[3]], 6);
    assert s == s[..3] + [s[3]] && s[..3] == [s[0], s[1], s[2]];
    BitsOfThree(s[0], s[1], s[2], 6);
    BitsOfOne(s[3], 6);
  }

  lemma {:induction false} ZeroBits(n: nat)
    ensures ToBits(0, n) == Zeros(n)
  {
    if n > 0 {
      ZeroBits(n - 1);
    }
  }

  lemma BitsPrefix(s: seq<nat>, k: nat, n: nat)
    requires k <= |s|
    ensures k * n <= |s| * n && Bits(s[..k], n) == Bits(s, n)[..k * n]
  {
    assert s == s[..k] + s[k..];
    BitsAppend(s[..k], s[k..], n);
    assert |s| * n == k * n + (|s| - k) * n;
  }

  /** The first sextets of three bytes, cut where the other bytes have only zero bits left. */
  lemma ShortGroup(full: bytes, k: nat)
    requires |full| == 3 && 1 <= k <= 2 && full[k..] == Zeroes(3 - k)
    ensures Bits(SextetsOf(full[0], full[1], full[2])[..k + 1], 6) == Bits(full[..k], 8) + Zeros(PadBits(k))
  {
    hide SextetsOf, ToBits, Bits;
    assert full == [full[0], full[1], full[2]];
    SextetsHoldBytes(full[0], full[1], full[2]);
    BitsPrefix(SextetsOf(full[0], full[1], full[2]), k + 1, 6);
    BitsAppend(full[..k], full[k..], 8);
    assert full == full[..k] + full[k..];
    ZeroTail(full[k..]);
  }

  function Zeroes(n: nat): bytes {
    seq(n, _ => 0)
  }

  lemma ShortTail(d: bytes)
    requires 1 <= |d| <= 2
    ensures Bits(EncodeValues(d), 6) == Bits(d, 8) + Zeros(PadBits(|d|))
  {
    hide SextetsOf, ToBits, Bits, PadBits;
    var full := d + Zeroes(3 - |d|);
    assert full[..|d|] == d && full[|d|..] == Zeroes(3 - |d|);
    ShortGroup(full, |d|);
  }

  lemma ZeroTail(z: bytes)
    requires z == Zeroes(1) || z == Zeroes(2)
    ensures Bits(z, 8) == Zeros(8 * |z|)
  {
    ZeroBits(8);
    BitsOfOne(0, 8);
    assert Zeroes(1) == [0];
    assert |z| == 2 ==> z[1..] == [0];
  }

  /** The encoding's bits are the data's bits, filled up with fewer than six zero bits. */
  lemma {:induction false} EncodingHoldsBits(d: bytes)
    ensures Bits(EncodeValues(d), 6) == Bits(d, 8) + Zeros(PadBits(|d|))
    decreases |d|
  {
    hide SextetsOf, ToBits, Bits;
    if |d| >= 3 {
      var rest := d[3..];
      EncodingHoldsBits(rest);
      SextetsHoldBytes(d[0], d[1], d[2]);
      BitsAppend(SextetsOf(d[0], d[1], d[2]), EncodeValues(rest), 6);
      BitsAppend([d[0], d[1], d[2]], rest, 8);
      assert d == [d[0], d[1], d[2]] + rest;
      assert PadBits(|d|) == PadBits(|rest|);
    } else if |d| > 0 {
      ShortTail(d);
    } else {
      assert Bits([], 6) == [] && Bits([], 8) == [];
    }
  }

  /** Four characters for every three bytes, rounded up. */
  lemma {:induction false} EncodedLength(d: bytes)
    ensures |Encode(d)| == (4 * |d| + 2) / 3
    decreases |d|
  {
    SpellLength(EncodeValues(d));
    if |d| >= 3 {
      SpellLength(EncodeValues(d[3..]));
      EncodedLength(d[3..]);
    }
  }

  lemma {:induction false} SpellLength(values: seq<sextet>)
    ensures |Spell(values)| == |values|
  {
    if values != [] {
      SpellLength(values[1..]);
    }
  }

  lemma SpellOne(v: sextet)
    ensures Spell([v]) == [Alphabet(v)]
  {
    assert [v][1..] == [];
  }

  lemma SpellTwo(u: sextet, v: sextet)
    ensures Spell([u, v]) == [Alphabet(u), Alphabet(v)]
  {
    SpellOne(u);
    SpellOne(v);
    SpellAppend([u], [v]);
    assert [u] + [v] == [u, v];
  }

  lemma SpellThree(u: sextet, v: sextet, w: sextet)
    ensures Spell([u, v, w]) == [Alphabet(u), Alphabet(v), Alphabet(w)]
  {
    SpellTwo(u, v);
    SpellOne(w);
    SpellAppend([u, v], [w]);
    assert [u, v] + [w] == [u, v, w];
  }

  lemma SpellFour(u: sextet, v: sextet, w: sextet, x: sextet)
    ensures Spell([u, v, w, x]) == [Alphabet(u), Alphabet(v), Alphabet(w), Alphabet(x)]
  {
    SpellTwo(u, v);
    SpellTwo(w, x);
    SpellAppend([u, v], [w, x]);
    assert [u, v] + [w, x] == [u, v, w, x];
  }

  /** What the encoding begins with, and how it goes on. */
  lemma EncodeStep(d: bytes)
    requires |d| >= 3
    ensures var v := Word(d[0], d[1], d[2]);
            Encode(d) == [Alphabet(v / 262144 % 64), Alphabet(v / 4096 % 64), Alphabet(v / 64 % 64), Alphabet(v % 64)]
                         + Encode(d[3..])
  {
    hide Alphabet;
    var s := SextetsOf(d[0], d[1], d[2]);
    SpellAppend(s, EncodeValues(d[3..]));
    SpellFour(s[0], s[1], s[2], s[3]);
  }

  lemma EncodeEnd(d: bytes)
    requires |d| < 3
    ensures d == [] ==> Encode(d) == []
    ensures |d| == 1 ==>
              var v := Word(d[0], 0, 0); Encode(d) == [Alphabet(v / 262144 % 64), Alphabet(v / 4096 % 64)]
    ensures |d| == 2 ==>
              var v := Word(d[0], d[1], 0);
              Encode(d) == [Alphabet(v / 262144 % 64), Alphabet(v / 4096 % 64), Alphabet(v / 64 % 64)]
  {
    hide Alphabet;
    if |d| == 1 {
      var s := SextetsOf(d[0], 0, 0);
      assert s[..2] == [s[0], s[1]];
      SpellTwo(s[0], s[1]);
    } else if |d| == 2 {
      var s := SextetsOf(d[0], d[1], 0);
      assert s[..3] == [s[0], s[1], s[2]];
      SpellThree(s[0], s[1], s[2]);
    }
  }

  /** `toBase64` */
  method ToBase64(data: bytes) returns (out: bytes)
    ensures out == Encode(data)
  {
    hide Encode, Alphabet;
    out := [];
    var i := 0;
    assert data[0..] == data;
    while i + 3 <= |data|
      invariant i <= |data|
      invariant Encode(data) == out + Encode(data[i..])
      decreases |data| - i
    {
      EncodeStep(data[i..]);
      assert data[i..][3..] == data[i + 3..];
      var v := Word(data[i], data[i + 1], data[i + 2]);
      out := out + [Alphabet(v / 262144 % 64)];
      out := out + [Alphabet(v / 4096 % 64)];
      out := out + [Alphabet(v / 64 % 64)];
      out := out + [Alphabet(v % 64)];
      i := i + 3;
    }
    EncodeEnd(data[i..]);
    var rem := |data| - i;
    if rem == 1 {
      var v := Word(data[i], 0, 0);
      out := out + [Alphabet(v / 262144 % 64), Alphabet(v / 4096 % 64)];
    } else if rem == 2 {
      var v := Word(data[i], data[i + 1], 0);
      out := out + [Alphabet(v / 262144 % 64), Alphabet(v / 4096 % 64), Alphabet(v / 64 % 64)];
    }
  }

  // ----- Decoding -----

  /** The value of a character of either base64 alphabet, or -1. */
  function Base64Value(c: byte): int {
    if 0x41 <= c <= 0x5A then c as int - 0x41
    else if 0x61 <= c <= 0x7A then c as int - 0x61 + 26
    else if 0x30 <= c <= 0x39 then c as int - 0x30 + 52
    else if c == 0x2D || c == 0x2B then 62
    else if c == 0x5F || c == 0x2F then 63
    else -1
  }

  lemma AlphabetValue(v: sextet)
    ensures Base64Value(Alphabet(v)) == v && Alphabet(v) != PADDING
  {
  }

  /** The values of the characters before the padding; characters outside the alphabets are skipped. */
  function Values(s: bytes): seq<sextet> {
    if s == [] || s[0] == PADDING then []
    else if Base64Value(s[0]) < 0 then Values(s[1..])
    else [Base64Value(s[0])] + Values(s[1..])
  }

  /** The whole bytes of a bit string; up to seven bits are left over at the end. */
  function Octets(b: seq<bool>): seq<nat> {
    if |b| < 8 then [] else [FromBits(b[..8])] + Octets(b[8..])
  }

  function Decode(s: bytes): seq<nat> {
    Octets(Bits(Values(s), 6))
  }

  lemma OctetsStep(b: seq<bool>, rest: seq<bool>)
    requires |b| == 8
    ensures Octets(b + rest) == [FromBits(b)] + Octets(rest)
  {
    assert (b + rest)[..8] == b && (b + rest)[8..] == rest;
  }

  lemma Regrouped(a: seq<bool>, b: seq<bool>, c: seq<bool>)
    ensures (a + b) + c == a + (b + c)
  {
  }

  lemma {:induction false} OctetsSplit(d: bytes, rest: seq<bool>)
    ensures Octets(Bits(d, 8) + rest) == d + Octets(rest)
    decreases |d|
  {
    hide ToBits, FromBits, Octets;
    if d == [] {
      assert Bits(d, 8) + rest == rest;
    } else {
      var b := ToBits(d[0], 8);
      Regrouped(b, Bits(d[1..], 8), rest);
      OctetsStep(b, Bits(d[1..], 8) + rest);
      ByteFromBits(d[0]);
      OctetsSplit(d[1..], rest);
      assert d == [d[0]] + d[1..];
    }
  }

  lemma OctetsOfBits(d: bytes, rest: seq<bool>)
    requires |rest| < 8
    ensures Octets(Bits(d, 8) + rest) == d
  {
    hide Bits;
    OctetsSplit(d, rest);
  }

  lemma Power2Values()
    ensures Power2(6) == 64 && Power2(8) == 256 && Power2(26) == 0x400_0000
  {
    assert Power2(2) == 4;
    assert Power2(4) == 4 * Power2(2);
    assert Power2(6) == 4 * Power2(4);
    assert Power2(8) == 4 * Power2(6);
    assert Power2(10) == 4 * Power2(8);
    assert Power2(12) == 4 * Power2(10);
    assert Power2(14) == 4 * Power2(12);
    assert Power2(16) == 4 * Power2(14);
    assert Power2(18) == 4 * Power2(16);
    assert Power2(20) == 4 * Power2(18);
    assert Power2(22) == 4 * Power2(20);
    assert Power2(24) == 4 * Power2(22);
    assert Power2(26) == 4 * Power2(24);
  }

  lemma ByteFromBits(c: byte)
    ensures FromBits(ToBits(c, 8)) == c
  {
    Power2Values();
    PowerDivides(8, 8);
    FromToBits(c, 8, 256);
  }

  lemma {:induction false} ValuesOfSpelling(values: seq<sextet>)
    ensures Values(Spell(values)) == values
  {
    if values != [] {
      AlphabetValue(values[0]);
      ValuesOfSpelling(values[1..]);
      assert Spell(values)[1..] == Spell(values[1..]);
      assert values == [values[0]] + values[1..];
    }
  }

  /** Decoding undoes encoding, for every byte sequence. */
  lemma RoundTrip(d: bytes)
    ensures Decode(Encode(d)) == d
  {
    ValuesOfSpelling(EncodeValues(d));
    EncodingHoldsBits(d);
    OctetsOfBits(d, Zeros(PadBits(|d|)));
  }

  lemma {:induction false} ValuesSplit(a: bytes, b: bytes)
    requires PADDING !in a
    ensures Values(a + b) == Values(a) + Values(b)
    decreases |a|
  {
    if a == [] {
      assert a + b == b;
    } else {
      assert (a + b)[1..] == a[1..] + b;
      ValuesSplit(a[1..], b);
    }
  }

  lemma {:induction false} ValuesStop(a: bytes, b: bytes)
    ensures Values(a + [PADDING] + b) == Values(a)
    decreases |a|
  {
    var s := a + [PADDING] + b;
    if a != [] {
      assert s[1..] == a[1..] + [PADDING] + b;
      ValuesStop(a[1..], b);
    }
  }

  lemma {:induction false} ValuesAfterPadding(a: bytes, b: bytes)
    requires PADDING in a
    ensures Values(a + b) == Values(a)
    decreases |a|
  {
    if a[0] != PADDING {
      assert (a + b)[1..] == a[1..] + b;
      ValuesAfterPadding(a[1..], b);
    }
  }

  /** The 64 characters of the URL-safe alphabet and their values. */
  predicate Stands(c: byte, v: nat) {
    || (0x41 <= c <= 0x5A && v == c - 0x41)
    || (0x61 <= c <= 0x7A && v == c - 0x61 + 26)
    || (0x30 <= c <= 0x39 && v == c - 0x30 + 52)
    || (c == 0x2D && v == 62) || (c == 0x5F && v == 63)
  }

  /** When reading, `+` and `/` of the standard alphabet count as well. */
  predicate Reads(c: byte, v: nat) {
    Stands(c, v) || (c == 0x2B && v == 62) || (c == 0x2F && v == 63)
  }

  lemma ReadsExactly(c: byte)
    ensures Base64Value(c) >= 0 ==> Base64Value(c) < 64 && Reads(c, Base64Value(c))
    ensures forall v: nat | Reads(c, v) :: Base64Value(c) == v && c != PADDING
  {
  }

  /** Characters outside the alphabets, inserted anywhere, change nothing. */
  lemma NoiseIsIgnored(a: bytes, noise: byte, b: bytes)
    requires noise != 0x3D && forall v: nat :: !Reads(noise, v)
    ensures Decode(a + [noise] + b) == Decode(a + b)
  {
    ReadsExactly(noise);
    hide Base64Value;
    assert a + [noise] + b == a + ([noise] + b);
    if PADDING in a {
      ValuesAfterPadding(a, [noise] + b);
      ValuesAfterPadding(a, b);
    } else {
      ValuesSplit(a, [noise] + b);
      ValuesSplit(a, b);
      assert ([noise] + b)[1..] == b;
    }
  }

  /** Nothing after a padding character is looked at. */
  lemma PaddingEndsInput(a: bytes, b: bytes)
    ensures Decode(a + [0x3D] + b) == Decode(a)
  {
    ValuesStop(a, b);
  }

  // ----- Character by character -----

  function OrZero(d: bytes, i: nat): nat {
    if i < |d| then d[i] else 0
  }

  /** The `t`-th sextet of three bytes. */
  function Sextet(a: nat, b: nat, c: nat, t: nat): nat {
    if t == 0 then a / 4 else if t == 1 then a % 4 * 16 + b / 16 else if t == 2 then b % 16 * 4 + c / 64 else c % 64
  }

  lemma SextetIs(a: byte, b: byte, c: byte, t: nat)
    requires t < 4
    ensures SextetsOf(a, b, c)[t] == Sextet(a, b, c, t)
  {
    var v := Word(a, b, c);
    assert v / 64 == a * 1024 + b * 4 + c / 64;
    assert v / 4096 == v / 64 / 64 == a * 16 + b / 16;
    assert v / 262144 == v / 4096 / 64 == a / 4;
  }

  lemma SpelledAt(values: seq<sextet>, j: nat)
    ensures |Spell(values)| == |values|
    ensures j < |values| ==> Stands(Spell(values)[j], values[j])
  {
    if values != [] {
      SpelledAt(values[1..], if j == 0 then 0 else j - 1);
    }
  }

  lemma {:induction false} EncodedValue(d: bytes, g: nat, t: nat)
    requires t < 4 && 4 * g + t < |EncodeValues(d)|
    ensures EncodeValues(d)[4 * g + t] == Sextet(OrZero(d, 3 * g), OrZero(d, 3 * g + 1), OrZero(d, 3 * g + 2), t)
    decreases g
  {
    hide SextetsOf;
    SextetIs(OrZero(d, 0), OrZero(d, 1), OrZero(d, 2), t);
    if g > 0 {
      EncodedValue(d[3..], g - 1, t);
    }
  }

  /** Each character of an encoding stands for its six bits of the group of three bytes it is in. */
  lemma EncodedCharacter(d: bytes, g: nat, t: nat)
    requires t < 4 && 4 * g + t < |Encode(d)|
    ensures Stands(Encode(d)[4 * g + t], Sextet(OrZero(d, 3 * g), OrZero(d, 3 * g + 1), OrZero(d, 3 * g + 2), t))
  {
    SpelledAt(EncodeValues(d), 4 * g + t);
    EncodedValue(d, g, t);
  }

  /** The `t`-th byte of four sextets. */
  function Octet(u: nat, v: nat, w: nat, x: nat, t: nat): nat {
    if t == 0 then u * 4 + v / 16 else if t == 1 then v % 16 * 16 + w / 4 else w % 4 * 64 + x
  }

  lemma OctetsFit(u: sextet, v: sextet, w: sextet, x: sextet)
    ensures Octet(u, v, w, x, 0) < 256 && Octet(u, v, w, x, 1) < 256 && Octet(u, v, w, x, 2) < 256
  {
  }

  lemma SextetsOfOctets(u: sextet, v: sextet, w: sextet, x: sextet)
    ensures var a, b, c := Octet(u, v, w, x, 0), Octet(u, v, w, x, 1), Octet(u, v, w, x, 2);
            Sextet(a, b, c, 0) == u && Sextet(a, b, c, 1) == v && Sextet(a, b, c, 2) == w && Sextet(a, b, c, 3) == x
  {
    assert (v % 16 * 16 + w / 4) / 16 == v % 16 && (w % 4 * 64 + x) / 64 == w % 4;
  }

  lemma GroupOf(u: sextet, v: sextet, w: sextet, x: sextet)
    ensures var a, b, c := Octet(u, v, w, x, 0), Octet(u, v, w, x, 1), Octet(u, v, w, x, 2);
            a < 256 && b < 256 && c < 256 && SextetsOf(a, b, c) == [u, v, w, x]
  {
    hide SextetsOf, Octet, Sextet;
    OctetsFit(u, v, w, x);
    SextetsOfOctets(u, v, w, x);
    var a, b, c := Octet(u, v, w, x, 0), Octet(u, v, w, x, 1), Octet(u, v, w, x, 2);
    SextetIs(a, b, c, 0);
    SextetIs(a, b, c, 1);
    SextetIs(a, b, c, 2);
    SextetIs(a, b, c, 3);
  }

  function SextetOrZero(values: seq<sextet>, i: nat): sextet {
    if i < |values| then values[i] else 0
  }

  /** At most three sextets hold the bytes whose bits they have whole. */
  lemma ShortOctets(values: seq<sextet>)
    requires |values| < 4
    ensures var n := if |values| < 2 then 0 else |values| - 1;
            && |Octets(Bits(values, 6))| == n
            && forall t: nat | t < n :: Octets(Bits(values, 6))[t] ==
                 Octet(SextetOrZero(values, 0), SextetOrZero(values, 1), SextetOrZero(values, 2), 0, t)
  {
    hide SextetsOf, ToBits, Bits, FromBits;
    var u, v, w := SextetOrZero(values, 0), SextetOrZero(values, 1), SextetOrZero(values, 2);
    var n := if |values| < 2 then 0 else |values| - 1;
    GroupOf(u, v, w, 0);
    var d: bytes := [Octet(u, v, w, 0, 0), Octet(u, v, w, 0, 1), Octet(u, v, w, 0, 2)];
    SextetsHoldBytes(d[0], d[1], d[2]);
    assert values == [u, v, w, 0][..|values|];
    BitsPrefix([u, v, w, 0], |values|, 6);
    BitsPrefix(d, n, 8);
    var bits := Bits(values, 6);
    assert bits == Bits(d[..n], 8) + bits[8 * n..];
    OctetsSplit(d[..n], bits[8 * n..]);
    assert Octets(bits[8 * n..]) == [];
  }

  lemma OctetsOfGroup(head: seq<sextet>, d: bytes, tail: seq<sextet>)
    requires Bits(head, 6) == Bits(d, 8)
    ensures Octets(Bits(head + tail, 6)) == d + Octets(Bits(tail, 6))
  {
    hide Bits, Octets;
    BitsAppend(head, tail, 6);
    OctetsSplit(d, Bits(tail, 6));
  }

  function OctetsOfFour(u: sextet, v: sextet, w: sextet, x: sextet): (d: bytes)
    ensures |d| == 3
  {
    GroupOf(u, v, w, x);
    [Octet(u, v, w, x, 0), Octet(u, v, w, x, 1), Octet(u, v, w, x, 2)]
  }

  lemma FourHold(u: sextet, v: sextet, w: sextet, x: sextet)
    ensures Bits([u, v, w, x], 6) == Bits(OctetsOfFour(u, v, w, x), 8)
  {
    hide SextetsOf, Bits, Octet;
    GroupOf(u, v, w, x);
    SextetsHoldBytes(Octet(u, v, w, x, 0), Octet(u, v, w, x, 1), Octet(u, v, w, x, 2));
  }

  lemma FullGroup(values: seq<sextet>)
    requires |values| >= 4
    ensures Octets(Bits(values, 6)) ==
            OctetsOfFour(values[0], values[1], values[2], values[3]) + Octets(Bits(values[4..], 6))
  {
    hide Bits, Octets, OctetsOfFour;
    var head := [values[0], values[1], values[2], values[3]];
    FourHold(values[0], values[1], values[2], values[3]);
    OctetsOfGroup(head, OctetsOfFour(values[0], values[1], values[2], values[3]), values[4..]);
    assert values == head + values[4..];
  }

  lemma {:induction false} OctetAt(values: seq<sextet>, g: nat, t: nat)
    requires t < 3
    ensures |Octets(Bits(values, 6))| == 6 * |values| / 8
    ensures 3 * g + t < |Octets(Bits(values, 6))| ==>
              Octets(Bits(values, 6))[3 * g + t] ==
              Octet(SextetOrZero(values, 4 * g), SextetOrZero(values, 4 * g + 1), SextetOrZero(values, 4 * g + 2),
                    SextetOrZero(values, 4 * g + 3), t)
    decreases |values|
  {
    hide Bits, Octets, Octet;
    if |values| < 4 {
      ShortOctets(values);
    } else {
      FullGroup(values);
      OctetAt(values[4..], if g == 0 then 0 else g - 1, t);
    }
  }

  lemma {:induction false} ValuesRead(s: bytes, values: seq<sextet>)
    requires |values| == |s| && forall i | 0 <= i < |s| :: Reads(s[i], values[i])
    ensures Values(s) == values
  {
    if s != [] {
      ReadsExactly(s[0]);
      ValuesRead(s[1..], values[1..]);
      assert values == [values[0]] + values[1..];
    }
  }

  /** Each byte of a decoding is made of the characters that hold its bits, in either alphabet. */
  lemma DecodedByte(s: bytes, values: seq<sextet>, g: nat, t: nat)
    requires |values| == |s| && (forall i | 0 <= i < |s| :: Reads(s[i], values[i])) && t < 3
    ensures |Decode(s)| == 6 * |s| / 8
    ensures 3 * g + t < |Decode(s)| ==>
              Decode(s)[3 * g + t] ==
              Octet(SextetOrZero(values, 4 * g), SextetOrZero(values, 4 * g + 1), SextetOrZero(values, 4 * g + 2),
                    SextetOrZero(values, 4 * g + 3), t)
  {
    ValuesRead(s, values);
    OctetAt(values, g, t);
  }

  // ----- The decoder's buffer -----

  lemma TwiceDivides(p: nat, n: nat)
    requires DividesBy(p, n)
    ensures DividesBy(2 * p, n + 1)
  {
  }

  lemma {:induction false} PowerDivides(n: nat, m: nat)
    requires n <= m
    ensures DividesBy(Power2(m), n)
    decreases n
  {
    PowerIsPositive(m);
    if n > 0 {
      PowerDivides(n - 1, m - 1);
      TwiceDivides(Power2(m - 1), n - 1);
      assert Power2(m) == 2 * Power2(m - 1);
    }
  }

  lemma {:induction false} PowerIsPositive(n: nat)
    ensures Power2(n) > 0
  {
    if n > 0 {
      PowerIsPositive(n - 1);
    }
  }

  lemma BufferWraps(buffer: nat, v: sextet)
    ensures (buffer * 64 % TWO_32 + v) / 64 == buffer % 0x400_0000 && (buffer * 64 % TWO_32 + v) % 64 == v
  {
    var q, r := buffer / 0x400_0000, buffer % 0x400_0000;
    assert buffer * 64 == q * TWO_32 + r * 64;
    ModOfSum(q, TWO_32, r * 64);
  }

  /** One more sextet in the 32-bit buffer: the stale bits above the pending ones do not matter. */
  lemma BufferTakes(buffer: nat, bits: nat, v: sextet)
    requires bits < 8
    ensures ToBits(buffer * 64 % TWO_32 + v, bits + 6) == ToBits(buffer, bits) + ToBits(v, 6)
  {
    hide ToBits, DividesBy, Power2, Shift;
    var next := buffer * 64 % TWO_32 + v;
    BufferWraps(buffer, v);
    ToBitsSplit(next, bits, 6);
    ShiftSix(next);
    Power2Values();
    PowerDivides(bits, 26);
    ToBitsMod(buffer, 0x400_0000, bits);
    PowerDivides(6, 6);
    ToBitsMod(next, 64, 6);
  }

  /** Taking a byte out of the buffer takes the oldest eight pending bits. */
  lemma BufferGives(buffer: nat, bits: nat)
    ensures ToBits(buffer, bits + 8) == ToBits(Shift(buffer, bits) % 256, 8) + ToBits(buffer, bits)
  {
    ToBitsSplit(buffer, 8, bits);
    assert 8 + bits == bits + 8;
    ToBitsMod(Shift(buffer, bits), 256, 8);
  }

  lemma PendingGrows(taken: seq<nat>, out: seq<nat>, buffer: nat, bits: nat, v: sextet)
    requires bits < 8 && Bits(taken, 6) == Bits(out, 8) + ToBits(buffer, bits)
    ensures Bits(taken + [v], 6) == Bits(out, 8) + ToBits(buffer * 64 % TWO_32 + v, bits + 6)
  {
    hide Bits, ToBits;
    BufferTakes(buffer, bits, v);
    BitsAppend(taken, [v], 6);
    BitsOfOne(v, 6);
  }

  lemma PendingShrinks(out: seq<nat>, buffer: nat, bits: nat, octet: nat)
    requires octet == Shift(buffer, bits) % 256
    ensures Bits(out, 8) + ToBits(buffer, bits + 8) == Bits(out + [octet], 8) + ToBits(buffer, bits)
  {
    hide Bits, ToBits, Shift;
    BufferGives(buffer, bits);
    BitsAppend(out, [octet], 8);
    BitsOfOne(octet, 8);
  }

  lemma ValuesStep(s: bytes, i: nat)
    requires i < |s| && s[i] != PADDING
    ensures Values(s[i..]) == (if Base64Value(s[i]) < 0 then [] else [Base64Value(s[i])]) + Values(s[i + 1..])
  {
    hide Base64Value;
    assert s[i..][1..] == s[i + 1..];
  }

  /** `fromBase64`, with its 32-bit buffer that wraps around. */
  method FromBase64(b64: bytes) returns (out: bytes)
    ensures out == Decode(b64)
  {
    hide Values, Bits, ToBits, Shift, Octets, Base64Value;
    out := [];
    var buffer: nat, bits := 0, 0;
    ghost var taken: seq<sextet> := [];
    var i := 0;
    assert b64[0..] == b64;
    NothingPending();
    while i < |b64| && b64[i] != PADDING
      invariant i <= |b64| && bits < 8 && buffer < TWO_32
      invariant Values(b64) == taken + Values(b64[i..])
      invariant Bits(taken, 6) == Bits(out, 8) + ToBits(buffer, bits)
      decreases |b64| - i
    {
      var v := Base64Value(b64[i]);
      ValuesStep(b64, i);
      i := i + 1;
      if v >= 0 {
        ValueIsSextet(b64[i - 1]);
        PendingGrows(taken, out, buffer, bits, v);
        taken := taken + [v];
        buffer := buffer * 64 % TWO_32 + v;
        bits := bits + 6;
        if bits >= 8 {
          bits := bits - 8;
          var octet: byte := Shift(buffer, bits) % 256;
          PendingShrinks(out, buffer, bits, octet);
          out := out + [octet];
        }
      }
    }
    ValuesEnd(b64[i..]);
    assert Values(b64) == taken;
    OctetsOfBits(out, ToBits(buffer, bits));
  }

  lemma NothingPending()
    ensures Bits([], 6) == Bits([], 8) + ToBits(0, 0)
  {
  }

  lemma ValueIsSextet(c: byte)
    ensures Base64Value(c) < 64
  {
  }

  lemma ValuesEnd(s: bytes)
    requires s == [] || s[0] == PADDING
    ensures Values(s) == []
  {
  }
}
