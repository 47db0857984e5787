/**
  The UTF-8 reader and writer of src/tokenizer.cpp (RFC 3629, sections 3 and 4). The source's bit
  operations are written with `/` and `%`: `x >> 6` is `x / 64`, `x & 0x3F` is `x % 64`, and
  `0xC0 | x` is `0xC0 + x` wherever the two have no bit in common.
  */
module Utf8 {
  import opened Bytes

  /** What the reader returns in place of a code point when the bytes are malformed. */
  const INVALID: nat := 0xFFFF_FFFF

  datatype Decoded = Decoded(cp: nat, len: nat)

  /** A Unicode scalar value: every code point but the surrogates. */
  predicate IsScalar(cp: nat) {
    cp < 0xD800 || 0xE000 <= cp <= 0x10FFFF
  }

  predicate IsContinuation(b: byte) {
    0x80 <= b < 0xC0
  }

  /** The bytes `appendCodepoint` appends. */
  function Encode(cp: nat): (out: bytes)
    requires cp <= 0x10FFFF
  {
    if cp < 0x80 then [cp]
    else if cp < 0x800 then [0xC0 + cp / 64, 0x80 + cp % 64]
    else if cp < 0x10000 then [0xE0 + cp / 4096, 0x80 + cp / 64 % 64, 0x80 + cp % 64]
    else [0xF0 + cp / 262144, 0x80 + cp / 4096 % 64, 0x80 + cp / 64 % 64, 0x80 + cp % 64]
  }

  /** The number of bytes a lead byte announces; 0 for a byte that cannot lead. */
  function Announced(lead: byte): nat {
    if lead < 0x80 then 1
    else if 0xC0 <= lead < 0xE0 then 2
    else if 0xE0 <= lead < 0xF0 then 3
    else if 0xF0 <= lead < 0xF8 then 4
    else 0
  }

  function LeadBits(lead: byte): nat {
    if 0xC0 <= lead < 0xE0 then lead % 32
    else if 0xE0 <= lead < 0xF0 then lead % 16
    else lead % 8
  }

  /** The bits gathered from the lead byte and the continuation bytes before position `k`. */
  function Gathered(s: bytes, k: nat): nat
    requires 1 <= k <= |s|
  {
    if k == 1 then LeadBits(s[0]) else Gathered(s, k - 1) * 64 + s[k - 1] % 64
  }

  /** Overlong forms, surrogates and values beyond Unicode are refused after decoding. */
  predicate Refused(n: nat, cp: nat) {
    || (n == 2 && cp < 0x80)
    || (n == 3 && cp < 0x800)
    || (n == 4 && cp < 0x10000)
    || 0xD800 <= cp <= 0xDFFF
    || cp > 0x10FFFF
  }

  /** One step of the reader on a non-empty rest of the text. */
  function DecodeHead(s: bytes): (d: Decoded)
    requires s != []
    ensures 1 <= d.len <= |s|
  {
    var n := Announced(s[0]);
    if n == 1 then Decoded(s[0], 1)
    else if n == 0 || n > |s| || exists i | 1 <= i < n :: !IsContinuation(s[i]) then Decoded(INVALID, 1)
    else if Refused(n, Gathered(s, n)) then Decoded(INVALID, 1)
    else Decoded(Gathered(s, n), n)
  }

  /** `decodeUtf8`: reads one code point at `offset` and says where the next one starts. */
  method DecodeUtf8(text: bytes, offset: nat) returns (cp: nat, next: nat)
    ensures offset >= |text| ==> cp == INVALID && next == offset
    ensures offset < |text| ==> next > offset && Decoded(cp, next - offset) == DecodeHead(text[offset..])
  {
    if offset >= |text| {
      return INVALID, offset;
    }
    ghost var rest := text[offset..];
    var c0 := text[offset];
    if c0 < 0x80 {
      return c0, offset + 1;
    }
    var nbytes;
    if 0xC0 <= c0 < 0xE0 {
      nbytes, cp := 2, c0 % 32;
    } else if 0xE0 <= c0 < 0xF0 {
      nbytes, cp := 3, c0 % 16;
    } else if 0xF0 <= c0 < 0xF8 {
      nbytes, cp := 4, c0 % 8;
    } else {
      return INVALID, offset + 1;
    }
    if offset + nbytes > |text| {
      return INVALID, offset + 1;
    }
    var i := 1;
    while i < nbytes
      invariant 1 <= i <= nbytes
      invariant cp == Gathered(rest, i)
      invariant forall j | 1 <= j < i :: IsContinuation(rest[j])
    {
      var c := text[offset + i];
      assert rest[i] == c;
      if !(0x80 <= c < 0xC0) {
        return INVALID, offset + 1;
      }
      cp := cp * 64 + c % 64;
      i := i + 1;
    }
    if Refused(nbytes, cp) {
      return INVALID, offset + 1;
    }
    next := offset + nbytes;
  }

  lemma GatheredUnrolled(s: bytes)
    requires s != []
    ensures |s| >= 2 ==> Gathered(s, 2) == LeadBits(s[0]) * 64 + s[1] % 64
    ensures |s| >= 3 ==> Gathered(s, 3) == (LeadBits(s[0]) * 64 + s[1] % 64) * 64 + s[2] % 64
    ensures |s| >= 4 ==>
              Gathered(s, 4) == ((LeadBits(s[0]) * 64 + s[1] % 64) * 64 + s[2] % 64) * 64 + s[3] % 64
  {
    if |s| >= 2 {
      assert Gathered(s, 2) == Gathered(s, 1) * 64 + s[1] % 64;
      if |s| >= 3 {
        assert Gathered(s, 3) == Gathered(s, 2) * 64 + s[2] % 64;
      }
    }
  }

  /** The six-bit digits of a code point. */
  lemma SixBitDigits(cp: nat)
    ensures cp == cp / 64 * 64 + cp % 64
    ensures cp == (cp / 4096 * 64 + cp / 64 % 64) * 64 + cp % 64
    ensures cp == ((cp / 262144 * 64 + cp / 4096 % 64) * 64 + cp / 64 % 64) * 64 + cp % 64
  {
    assert cp / 4096 == cp / 64 / 64;
    assert cp / 262144 == cp / 4096 / 64;
  }

  /** The value of a row of bytes behind the lead, six bits each. */
  function Payload(tail: bytes): int {
    if tail == [] then 0 else Payload(tail[..|tail| - 1]) * 64 + (tail[|tail| - 1] as int - 0x80)
  }

  /**
    One byte below 0x80, two below 0x800, three below 0x10000 and otherwise four; the lead byte says how many, and
    the bits of the code point are those of the lead byte followed by six of each other byte.
    */
  lemma EncodedForm(cp: nat)
    requires cp <= 0x10FFFF
    ensures var e, n := Encode(cp), if cp < 0x80 then 1 else if cp < 0x800 then 2 else if cp < 0x10000 then 3 else 4;
            && |e| == n && (forall i | 1 <= i < n :: 0x80 <= e[i] <= 0xBF)
            && (n == 1 ==> e[0] == cp)
            && (n == 2 ==> 0xC2 <= e[0] <= 0xDF && cp == (e[0] as int - 0xC0) * 64 + Payload(e[1..]))
            && (n == 3 ==> 0xE0 <= e[0] <= 0xEF && cp == (e[0] as int - 0xE0) * 4096 + Payload(e[1..]))
            && (n == 4 ==> 0xF0 <= e[0] <= 0xF4 && cp == (e[0] as int - 0xF0) * 262144 + Payload(e[1..]))
  {
    SixBitDigits(cp);
    var e := Encode(cp);
    if |e| >= 2 {
      var t := e[1..];
      assert Payload([]) == 0;
      assert |t| == 1 ==> t[..0] == [];
      assert |t| == 2 ==> t[..1][..0] == [] && Payload(t[..1]) == t[0] as int - 0x80;
      assert |t| == 3 ==> t[..2][..1][..0] == [] && Payload(t[..2][..1]) == t[0] as int - 0x80
                          && Payload(t[..2]) == (t[0] as int - 0x80) * 64 + (t[1] as int - 0x80);
    }
  }

  /** And back: the digits of a number put together from digits. */
  lemma DigitsOfSum(hi: nat, d: nat)
    requires d < 64
    ensures (hi * 64 + d) / 64 == hi && (hi * 64 + d) % 64 == d
    ensures (hi * 64 + d) / 4096 == hi / 64
    ensures (hi * 64 + d) / 262144 == hi / 4096
  {
    var n := hi * 64 + d;
    assert n / 4096 == n / 64 / 64;
    assert n / 262144 == n / 64 / 4096;
  }

  /** Decoding undoes encoding, whatever follows, and consumes exactly the encoding. */
  lemma DecodeAfterEncode(cp: nat, rest: bytes)
    requires IsScalar(cp)
    ensures DecodeHead(Encode(cp) + rest) == Decoded(cp, |Encode(cp)|)
  {
    var e := Encode(cp);
    EncodedLead(cp);
    if cp >= 0x80 {
      EncodedBits(cp);
    }
    EncodedIsNotRefused(cp);
    DecodeWellShaped(e, rest);
  }

  /** A well-shaped sequence whose value is not refused is accepted, whatever follows it. */
  lemma DecodeWellShaped(e: bytes, rest: bytes)
    requires e != [] && |e| == Announced(e[0])
    requires forall i | 1 <= i < |e| :: IsContinuation(e[i])
    requires |e| > 1 ==> !Refused(|e|, Gathered(e, |e|))
    ensures DecodeHead(e + rest) == Decoded(if |e| == 1 then e[0] else Gathered(e, |e|), |e|)
  {
    var s := e + rest;
    assert forall i | 0 <= i < |e| :: s[i] == e[i];
    GatheredIsLocal(e, rest, |e|);
  }

  lemma GatheredTwo(hi: nat, d: nat)
    requires hi < 32 && d < 64
    ensures Gathered([0xC0 + hi, 0x80 + d], 2) == hi * 64 + d
  {
    GatheredUnrolled([0xC0 + hi, 0x80 + d]);
  }

  lemma GatheredThree(hi: nat, d: nat, e: nat)
    requires hi < 16 && d < 64 && e < 64
    ensures Gathered([0xE0 + hi, 0x80 + d, 0x80 + e], 3) == (hi * 64 + d) * 64 + e
  {
    hide Gathered;
    GatheredUnrolled([0xE0 + hi, 0x80 + d, 0x80 + e]);
  }

  lemma GatheredFour(hi: nat, d: nat, e: nat, f: nat)
    requires hi < 8 && d < 64 && e < 64 && f < 64
    ensures Gathered([0xF0 + hi, 0x80 + d, 0x80 + e, 0x80 + f], 4) == ((hi * 64 + d) * 64 + e) * 64 + f
  {
    hide Gathered;
    GatheredUnrolled([0xF0 + hi, 0x80 + d, 0x80 + e, 0x80 + f]);
  }

  lemma EncodedBits(cp: nat)
    requires 0x80 <= cp <= 0x10FFFF
    ensures Gathered(Encode(cp), |Encode(cp)|) == cp
  {
    SixBitDigits(cp);
    if cp < 0x800 {
      GatheredTwo(cp / 64, cp % 64);
    } else if cp < 0x10000 {
      GatheredThree(cp / 4096, cp / 64 % 64, cp % 64);
    } else {
      GatheredFour(cp / 262144, cp / 4096 % 64, cp / 64 % 64, cp % 64);
    }
  }

  lemma EncodedIsNotRefused(cp: nat)
    requires IsScalar(cp)
    ensures !Refused(|Encode(cp)|, cp)
  {
  }

  lemma EncodedLead(cp: nat)
    requires cp <= 0x10FFFF
    ensures |Encode(cp)| == Announced(Encode(cp)[0])
    ensures cp >= 0x80 ==> LeadBits(Encode(cp)[0]) ==
                             if cp < 0x800 then cp / 64 else if cp < 0x10000 then cp / 4096 else cp / 262144
    ensures forall i | 1 <= i < |Encode(cp)| :: IsContinuation(Encode(cp)[i])
  {
  }

  lemma EncodeTwo(hi: nat, d: nat)
    requires hi < 32 && d < 64 && hi * 64 + d >= 0x80
    ensures Encode(hi * 64 + d) == [0xC0 + hi, 0x80 + d]
  {
    DigitsOfSum(hi, d);
  }

  lemma EncodeThree(hi: nat, d: nat, e: nat)
    requires hi < 16 && d < 64 && e < 64 && (hi * 64 + d) * 64 + e >= 0x800
    ensures Encode((hi * 64 + d) * 64 + e) == [0xE0 + hi, 0x80 + d, 0x80 + e]
  {
    DigitsOfSum(hi * 64 + d, e);
    DigitsOfSum(hi, d);
  }

  lemma EncodeFour(hi: nat, d: nat, e: nat, f: nat)
    requires hi < 8 && d < 64 && e < 64 && f < 64
    requires 0x10000 <= ((hi * 64 + d) * 64 + e) * 64 + f <= 0x10FFFF
    ensures Encode(((hi * 64 + d) * 64 + e) * 64 + f) == [0xF0 + hi, 0x80 + d, 0x80 + e, 0x80 + f]
  {
    DigitsOfSum((hi * 64 + d) * 64 + e, f);
    DigitsOfSum(hi * 64 + d, e);
    DigitsOfSum(hi, d);
  }

  /** Whatever the reader accepts is a scalar value, and the bytes it consumed are its encoding. */
  lemma EncodeAfterDecode(s: bytes)
    requires s != []
    requires DecodeHead(s).cp != INVALID
    ensures IsScalar(DecodeHead(s).cp)
    ensures Encode(DecodeHead(s).cp) == s[..DecodeHead(s).len]
  {
    var n := DecodeHead(s).len;
    if n > 1 {
      assert forall i | 1 <= i < n :: IsContinuation(s[i]);
      EncodeGathered(s, n);
    }
  }

  /** The payload of a continuation byte. */
  function Tail(b: byte): (d: nat)
    requires IsContinuation(b)
    ensures d == b % 64 < 64
  {
    b - 0x80
  }

  lemma EncodeGathered(s: bytes, n: nat)
    requires s != [] && 2 <= n == Announced(s[0]) <= |s|
    requires forall i | 1 <= i < n :: IsContinuation(s[i])
    requires !Refused(n, Gathered(s, n))
    ensures Encode(Gathered(s, n)) == s[..n]
  {
    GatheredUnrolled(s);
    if n == 2 {
      EncodeGatheredTwo(s);
    } else if n == 3 {
      EncodeGatheredThree(s);
    } else {
      EncodeGatheredFour(s);
    }
  }

  lemma EncodeGatheredTwo(s: bytes)
    requires |s| >= 2 && 0xC0 <= s[0] < 0xE0 && IsContinuation(s[1])
    requires LeadBits(s[0]) * 64 + s[1] % 64 >= 0x80
    ensures Encode(LeadBits(s[0]) * 64 + s[1] % 64) == s[..2]
  {
    EncodeTwo(s[0] - 0xC0, Tail(s[1]));
  }

  lemma EncodeGatheredThree(s: bytes)
    requires |s| >= 3 && 0xE0 <= s[0] < 0xF0 && IsContinuation(s[1]) && IsContinuation(s[2])
    requires (LeadBits(s[0]) * 64 + s[1] % 64) * 64 + s[2] % 64 >= 0x800
    ensures Encode((LeadBits(s[0]) * 64 + s[1] % 64) * 64 + s[2] % 64) == s[..3]
  {
    EncodeThree(s[0] - 0xE0, Tail(s[1]), Tail(s[2]));
  }

  lemma EncodeGatheredFour(s: bytes)
    requires |s| >= 4 && 0xF0 <= s[0] < 0xF8
    requires IsContinuation(s[1]) && IsContinuation(s[2]) && IsContinuation(s[3])
    requires 0x10000 <= ((LeadBits(s[0]) * 64 + s[1] % 64) * 64 + s[2] % 64) * 64 + s[3] % 64 <= 0x10FFFF
    ensures Encode(((LeadBits(s[0]) * 64 + s[1] % 64) * 64 + s[2] % 64) * 64 + s[3] % 64) == s[..4]
  {
    EncodeFour(s[0] - 0xF0, Tail(s[1]), Tail(s[2]), Tail(s[3]));
  }

  /** The reader accepts exactly the texts that begin with the encoding of a scalar value. */
  lemma DecodeAcceptsExactly(s: bytes)
    requires s != []
    ensures DecodeHead(s).cp != 0xFFFF_FFFF <==>
            exists cp: nat :: (cp < 0xD800 || 0xE000 <= cp <= 0x10FFFF) && Encode(cp) <= s
    ensures DecodeHead(s).cp == 0xFFFF_FFFF ==> DecodeHead(s).len == 1
  {
    if DecodeHead(s).cp != INVALID {
      EncodeAfterDecode(s);
    }
    forall cp: nat | IsScalar(cp) && Encode(cp) <= s
      ensures DecodeHead(s).cp != INVALID
    {
      DecodeAfterEncode(cp, s[|Encode(cp)|..]);
      assert s == Encode(cp) + s[|Encode(cp)|..];
    }
  }

  /** The first byte of an encoding is never a continuation byte. */
  lemma EncodingLeads(cp: nat)
    requires cp <= 0x10FFFF
    ensures Encode(cp) != [] && !IsContinuation(Encode(cp)[0])
  {
  }

  /**
    What follows cannot change how a non-empty text starts, provided it does not begin with a
    continuation byte: a sequence cut short stays malformed.
    */
  lemma DecodeHeadIsLocal(x: bytes, y: bytes)
    requires x != []
    requires y == [] || !IsContinuation(y[0])
    ensures DecodeHead(x + y) == DecodeHead(x)
  {
    var s := x + y;
    var n := Announced(x[0]);
    if y != [] && n > |x| {
      if n <= |s| {
        assert !IsContinuation(s[|x|]);
      }
    } else if 1 <= n <= |x| {
      GatheredIsLocal(x, y, n);
      assert forall i | 1 <= i < n :: s[i] == x[i];
    }
    assert y == [] ==> s == x;
  }

  lemma {:induction false} GatheredIsLocal(x: bytes, y: bytes, k: nat)
    requires 1 <= k <= |x|
    ensures Gathered(x + y, k) == Gathered(x, k)
  {
    if k > 1 {
      GatheredIsLocal(x, y, k - 1);
    }
  }
}
