/** The Bloom filter of src/bloom_filter.cpp. A 64-bit word is the sequence of its bits, lowest first. */
module BloomFilter {
  import opened Bytes
  import opened Words

  type Word = w: seq<bool> | |w| == 64 witness seq(64, _ => false)

  const ZERO: Word := seq(64, _ => false)

  /** The number of bits and of probes, and the platform's `std::hash`. */
  datatype Geometry = Geometry(m: nat, k: nat, hash: bytes -> nat)
  {
    predicate Valid() {
      m >= 1 && k >= 1
    }
  }

  /** FNV-1a over 64-bit words, with wrap-around. */
  function Fnv(s: bytes): bv64 {
    if s == [] then 1469598103934665603 else Mix(Fnv(s[..|s| - 1]), s[|s| - 1])
  }

  function Mix(hash: bv64, b: byte): bv64 {
    (hash ^ (b as bv64)) * 1099511628211
  }

  method Fnv1a(s: bytes) returns (hash: bv64)
    ensures hash == Fnv(s)
  {
    hide Mix;
    hash := 1469598103934665603;
    for i := 0 to |s|
      invariant hash == Fnv(s[..i])
    {
      assert s[..i + 1][..i] == s[..i];
      hash := Mix(hash, s[i]);
    }
    assert s[..|s|] == s;
  }

  function SecondHash(key: bytes): nat {
    var h := Fnv(key) as nat;
    if h == 0 then 1 else h
  }

  /** The `i`-th bit a key sets, from 64-bit arithmetic that wraps around. */
  function Probe(g: Geometry, key: bytes, i: nat): (bit: nat)
    requires g.Valid()
    ensures bit < g.m
  {
    (g.hash(key) + i * SecondHash(key)) % TWO_64 % g.m
  }

  /** One step of FNV-1a. */
  predicate IsMix(hash: bv64, b: byte, next: bv64) {
    next == (hash ^ (b as bv64)) * 1099511628211
  }

  /** The hash of a text, from that of the text without its last byte. */
  lemma FnvOf(s: bytes, b: byte)
    ensures Fnv([]) == 1469598103934665603
    ensures IsMix(Fnv(s), b, Fnv(s + [b]))
  {
    hide Mix, IsMix;
    assert (s + [b])[..|s|] == s;
    MixIs(Fnv(s), b);
  }

  lemma MixIs(hash: bv64, b: byte)
    ensures IsMix(hash, b, Mix(hash, b))
  {
  }

  /** The first hash plus `i` times the second, which is 1 when FNV gives 0, in 64 bits and then among `m` places. */
  predicate IsProbe(g: Geometry, key: bytes, i: nat, bit: nat)
    requires g.Valid()
  {
    var step := if Fnv(key) == 0 then 1 else Fnv(key) as nat;
    bit == (g.hash(key) + i * step) % 0x1_0000_0000_0000_0000 % g.m
  }

  /** A key has `k` probes, those of the formula. */
  lemma ProbesExactly(g: Geometry, key: bytes, bit: nat)
    requires g.Valid()
    ensures bit in Probes(g, key) <==> exists i: nat :: i < g.k && IsProbe(g, key, i, bit)
  {
    hide Fnv;
    if bit in Probes(g, key) {
      var i :| 0 <= i < g.k && bit == Probe(g, key, i);
      assert IsProbe(g, key, i, bit);
    }
    if i: nat :| i < g.k && IsProbe(g, key, i, bit) {
      assert bit == Probe(g, key, i);
    }
  }

  function Probes(g: Geometry, key: bytes): set<nat>
    requires g.Valid()
  {
    set i | 0 <= i < g.k :: Probe(g, key, i)
  }

  /** The bits after inserting keys one after another into an empty filter. */
  function ProbesOf(g: Geometry, keys: seq<bytes>): set<nat>
    requires g.Valid()
  {
    if keys == [] then {} else ProbesOf(g, keys[..|keys| - 1]) + Probes(g, keys[|keys| - 1])
  }

  lemma {:induction false} ProbesOfKeys(g: Geometry, keys: seq<bytes>)
    requires g.Valid()
    ensures forall bit :: bit in ProbesOf(g, keys) <==> exists i :: 0 <= i < |keys| && bit in Probes(g, keys[i])
  {
    hide Probes;
    if keys != [] {
      var front := keys[..|keys| - 1];
      ProbesOfKeys(g, front);
      forall bit
        ensures bit in ProbesOf(g, keys) <==> exists i :: 0 <= i < |keys| && bit in Probes(g, keys[i])
      {
        if bit in ProbesOf(g, front) {
          var i :| 0 <= i < |front| && bit in Probes(g, front[i]);
          assert bit in Probes(g, keys[i]);
        }
        if i :| 0 <= i < |keys| && bit in Probes(g, keys[i]) {
          assert i < |front| ==> bit in Probes(g, front[i]);
        }
      }
    }
  }

  /** Every inserted key is reported present: the filter has no false negatives. */
  lemma NoFalseNegatives(g: Geometry, keys: seq<bytes>, key: bytes)
    requires g.Valid() && key in keys
    ensures Probes(g, key) <= ProbesOf(g, keys)
  {
  }

  /** The contents depend only on which keys were inserted, not on their order or repetition. */
  lemma OrderIsIrrelevant(g: Geometry, keys: seq<bytes>, keys': seq<bytes>)
    requires g.Valid()
    requires forall key :: key in keys <==> key in keys'
    ensures ProbesOf(g, keys) == ProbesOf(g, keys')
  {
    hide Probes;
    ProbesOfKeys(g, keys);
    ProbesOfKeys(g, keys');
    forall bit | bit in ProbesOf(g, keys)
      ensures bit in ProbesOf(g, keys')
    {
      var i :| 0 <= i < |keys| && bit in Probes(g, keys[i]);
      assert keys[i] in keys';
      var j :| 0 <= j < |keys'| && keys'[j] == keys[i];
    }
    forall bit | bit in ProbesOf(g, keys')
      ensures bit in ProbesOf(g, keys)
    {
      var i :| 0 <= i < |keys'| && bit in Probes(g, keys'[i]);
      assert keys'[i] in keys;
      var j :| 0 <= j < |keys| && keys[j] == keys'[i];
    }
  }

  class BloomFilter {
    const g: Geometry
    const bits: array<Word>

    ghost predicate Valid()
      reads this, bits
    {
      g.Valid() && bits.Length == (g.m + 63) / 64
    }

    predicate Test(bit: nat)
      requires bit / 64 < bits.Length
      reads bits
    {
      bits[bit / 64][bit % 64]
    }

    /** The positions of the bits that are 1. */
    ghost function SetBits(): set<nat>
      reads this, bits
    {
      set bit | 0 <= bit < 64 * bits.Length && Test(bit)
    }

    constructor (g: Geometry)
      requires g.Valid()
      ensures Valid() && fresh(bits) && this.g == g
      ensures SetBits() == {}
    {
      this.g := g;
      bits := new Word[(g.m + 63) / 64](_ => ZERO);
    }

    method Set(bit: nat)
      requires Valid() && bit < g.m
      modifies bits
      ensures SetBits() == old(SetBits()) + {bit}
    {
      bits[bit / 64] := bits[bit / 64][bit % 64 := true];
      forall b | 0 <= b < 64 * bits.Length
        ensures Test(b) <==> old(Test(b)) || b == bit
      {
        assert b == b / 64 * 64 + b % 64 && bit == bit / 64 * 64 + bit % 64;
      }
    }

    /** `insert` */
    method Insert(key: bytes)
      requires Valid()
      modifies bits
      ensures Valid() && SetBits() == old(SetBits()) + Probes(g, key)
    {
      var h1 := g.hash(key);
      var fnv := Fnv1a(key);
      var h2 := fnv as nat;
      if h2 == 0 {
        h2 := 1;
      }
      assert h1 == g.hash(key) && h2 == SecondHash(key);
      hide Fnv, SecondHash, SetBits;
      for i := 0 to g.k
        invariant SetBits() == old(SetBits()) + set j | 0 <= j < i :: Probe(g, key, j)
      {
        var bit := (h1 + i * h2) % TWO_64 % g.m;
        assert bit == Probe(g, key, i);
        Set(bit);
      }
    }

    /** `maybeContains`: all bits of the key are set. */
    method MaybeContains(key: bytes) returns (r: bool)
      requires Valid()
      ensures r <==> Probes(g, key) <= SetBits()
    {
      var h1 := g.hash(key);
      var fnv := Fnv1a(key);
      var h2 := fnv as nat;
      if h2 == 0 {
        h2 := 1;
      }
      for i := 0 to g.k
        invariant forall j | 0 <= j < i :: Probe(g, key, j) in SetBits()
      {
        var bit := (h1 + i * h2) % TWO_64 % g.m;
        assert bit == Probe(g, key, i) && bit in Probes(g, key);
        if !Test(bit) {
          return false;
        }
      }
      r := true;
    }

    /** `clear` */
    method Clear()
      requires Valid()
      modifies bits
      ensures Valid() && SetBits() == {}
    {
      for i := 0 to bits.Length
        invariant forall j | 0 <= j < i :: bits[j] == ZERO
      {
        bits[i] := ZERO;
      }
    }
  }
}
