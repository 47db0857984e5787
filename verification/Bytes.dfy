/** Byte strings: a `std::string` is a sequence of bytes, with no encoding of its own. */
module Bytes {
  type byte = b: int | 0 <= b < 256
  type bytes = seq<byte>

  /** `w` is written in `data` at `pos`. */
  predicate At(data: bytes, pos: nat, w: bytes) {
    pos + |w| <= |data| && data[pos..pos + |w|] == w
  }

  /** A concatenation is written somewhere exactly when its parts are, one after the other. */
  lemma AtParts(data: bytes, pos: nat, v: bytes, w: bytes)
    ensures At(data, pos, v + w) <==> At(data, pos, v) && At(data, pos + |v|, w)
  {
    if pos + |v| + |w| <= |data| {
      var x := data[pos..pos + |v| + |w|];
      assert x[..|v|] == data[pos..pos + |v|] && x[|v|..] == data[pos + |v|..pos + |v| + |w|];
      assert x == x[..|v|] + x[|v|..];
      if x == v + w {
        assert (v + w)[..|v|] == v && (v + w)[|v|..] == w;
      }
    }
  }

  lemma AtFirst(data: bytes, pos: nat, w: bytes)
    requires At(data, pos, w) && w != []
    ensures pos < |data| && data[pos] == w[0]
  {
  }
}
