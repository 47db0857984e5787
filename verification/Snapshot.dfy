/** The plain document codec of src/snapshot.cpp: versioned and length-prefixed, little-endian. */
module Snapshot {
  import opened Bytes
  import opened IndexModel
  import opened Words

  const MAGIC: bytes := [0x53, 0x48, 0x53, 0x45, 0x31, 0x00]
  const VERSION: u32 := 1
  const MAX_COUNT: nat := 10_000_000

  // ----- Writing -----

  function U32(v: u32): bytes {
    [v % 256, v / 256 % 256, v / 65536 % 256, v / 16777216]
  }

  /** A length above 32 bits is truncated, as the source's cast does; the bytes are all written. */
  function Str(s: bytes): bytes {
    U32(|s| % TWO_32) + s
  }

  function SourceByte(source: SourceType): byte {
    if source == Onion then 1 else 0
  }

  function SerializeOne(d: Document): bytes {
    WithSource(d, SourceByte(d.source))
  }

  function WithSource(d: Document, source: byte): bytes {
    Str(d.url) + Str(d.title) + Str(d.snippet) + Str(d.content) + [source] + U32(d.depth)
  }

  function Bodies(docs: seq<Document>): bytes {
    if docs == [] then [] else SerializeOne(docs[0]) + Bodies(docs[1..])
  }

  function Serialize(docs: seq<Document>): bytes {
    MAGIC + U32(VERSION) + U32(|docs| % TWO_32) + Bodies(docs)
  }

  /** `serializeDocuments` */
  method SerializeDocuments(docs: seq<Document>) returns (out: bytes)
    ensures out == Serialize(docs)
  {
    hide SerializeOne, Bodies;
    BodiesOfNone();
    out := MAGIC;
    out := out + U32(VERSION);
    out := out + U32(|docs| % TWO_32);
    ghost var header := out;
    for i := 0 to |docs|
      invariant out == header + Bodies(docs[..i])
    {
      BodiesAppend(docs[..i], docs[i]);
      assert docs[..i + 1] == docs[..i] + [docs[i]];
      assert header + (Bodies(docs[..i]) + SerializeOne(docs[i])) == out + SerializeOne(docs[i]);
      out := out + SerializeOne(docs[i]);
    }
    assert docs[..|docs|] == docs;
  }

  lemma BodiesOfNone()
    ensures Bodies([]) == []
  {
  }

  lemma {:induction false} BodiesAppend(docs: seq<Document>, d: Document)
    ensures Bodies(docs + [d]) == Bodies(docs) + SerializeOne(d)
  {
    if docs == [] {
      assert [d] == [d] + [];
      assert (docs + [d])[1..] == [];
    } else {
      assert (docs + [d])[1..] == docs[1..] + [d];
      BodiesAppend(docs[1..], d);
    }
  }

  // ----- Reading -----

  /** A read value and the position after it, or failure at the end of the data. */
  datatype Read<+T> = Got(value: T, next: nat) | Short

  function ReadU8(data: bytes, pos: nat): (r: Read<byte>)
    ensures r.Got? ==> pos < r.next <= |data|
  {
    if pos + 1 > |data| then Short else Got(data[pos], pos + 1)
  }

  function LittleEndian(a: nat, b: nat, c: nat, d: nat): u32
    requires a < 256 && b < 256 && c < 256 && d < 256
  {
    a + b * 256 + c * 65536 + d * 16777216
  }

  function ReadU32(data: bytes, pos: nat): (r: Read<u32>)
    ensures r.Got? ==> pos < r.next <= |data|
  {
    if pos + 4 > |data| then Short
    else Got(LittleEndian(data[pos], data[pos + 1], data[pos + 2], data[pos + 3]), pos + 4)
  }

  function ReadStr(data: bytes, pos: nat): (r: Read<bytes>)
    ensures r.Got? ==> pos < r.next <= |data|
  {
    var len := ReadU32(data, pos);
    if len.Short? then Short
    else if len.next + len.value > |data| then Short
    else Got(data[len.next..len.next + len.value], len.next + len.value)
  }

  function ReadDocument(data: bytes, pos: nat): (r: Read<Document>)
    ensures r.Got? ==> pos < r.next <= |data|
  {
    var url := ReadStr(data, pos);
    if url.Short? then Short else
    var title := ReadStr(data, url.next);
    if title.Short? then Short else
    var snippet := ReadStr(data, title.next);
    if snippet.Short? then Short else
    var content := ReadStr(data, snippet.next);
    if content.Short? then Short else
    var source := ReadU8(data, content.next);
    if source.Short? then Short else
    var depth := ReadU32(data, source.next);
    if depth.Short? then Short else
    Got(Document(0, url.value, title.value, snippet.value, content.value,
                 if source.value == 1 then Onion else ClearWeb, depth.value), depth.next)
  }

  /** What reading leaves behind: on failure, the documents read so far stay in the output. */
  datatype Outcome = Outcome(ok: bool, docs: seq<Document>)

  function ReadDocuments(data: bytes, pos: nat, count: nat): (r: Outcome)
    ensures r.ok ==> |r.docs| == count
    decreases count
  {
    if count == 0 then Outcome(true, [])
    else
      var d := ReadDocument(data, pos);
      if d.Short? then Outcome(false, [])
      else
        var rest := ReadDocuments(data, d.next, count - 1);
        Outcome(rest.ok, [d.value] + rest.docs)
  }

  /** The declared document count, when the magic, the version and the count are acceptable. */
  function ReadHeader(data: bytes): (r: Read<u32>)
    ensures r.Got? ==> r.next <= |data|
  {
    if !(MAGIC <= data) then Short
    else
      var version := ReadU32(data, |MAGIC|);
      if version.Short? || version.value != VERSION then Short
      else
        var count := ReadU32(data, version.next);
        if count.Short? || count.value > MAX_COUNT then Short else count
  }

  function Deserialize(data: bytes): Outcome {
    var count := ReadHeader(data);
    if count.Short? then Outcome(false, []) else ReadDocuments(data, count.next, count.value)
  }

  /** The source's `Reader`: a position that moves over the data and never past its end. */
  class Reader {
    const data: bytes
    var pos: nat

    constructor (data: bytes, pos: nat)
      requires pos <= |data|
      ensures this.data == data && this.pos == pos
    {
      this.data, this.pos := data, pos;
    }

    method TakeU8() returns (r: Read<byte>)
      requires pos <= |data|
      modifies this
      ensures r == ReadU8(data, old(pos)) && old(pos) <= pos <= |data|
      ensures r.Got? ==> pos == r.next
    {
      if pos + 1 > |data| {
        return Short;
      }
      r := Got(data[pos], pos + 1);
      pos := pos + 1;
    }

    method TakeU32() returns (r: Read<u32>)
      requires pos <= |data|
      modifies this
      ensures r == ReadU32(data, old(pos)) && old(pos) <= pos <= |data|
      ensures r.Got? ==> pos == r.next
    {
      if pos + 4 > |data| {
        return Short;
      }
      r := Got(LittleEndian(data[pos], data[pos + 1], data[pos + 2], data[pos + 3]), pos + 4);
      pos := pos + 4;
    }

    method TakeStr() returns (r: Read<bytes>)
      requires pos <= |data|
      modifies this
      ensures r == ReadStr(data, old(pos)) && old(pos) <= pos <= |data|
      ensures r.Got? ==> pos == r.next
    {
      var len := TakeU32();
      if len.Short? || pos + len.value > |data| {
        return Short;
      }
      r := Got(data[pos..pos + len.value], pos + len.value);
      pos := pos + len.value;
    }

    method TakeDocument() returns (r: Read<Document>)
      requires pos <= |data|
      modifies this
      ensures r == ReadDocument(data, old(pos)) && old(pos) <= pos <= |data|
      ensures r.Got? ==> pos == r.next
    {
      var url := TakeStr();
      if url.Short? { return Short; }
      var title := TakeStr();
      if title.Short? { return Short; }
      var snippet := TakeStr();
      if snippet.Short? { return Short; }
      var content := TakeStr();
      if content.Short? { return Short; }
      var source := TakeU8();
      if source.Short? { return Short; }
      var depth := TakeU32();
      if depth.Short? { return Short; }
      r := Got(Document(0, url.value, title.value, snippet.value, content.value,
                        if source.value == 1 then Onion else ClearWeb, depth.value), pos);
    }
  }

  method TakeHeader(data: bytes) returns (r: Reader, count: Read<u32>)
    ensures fresh(r) && r.data == data && count == ReadHeader(data)
    ensures count.Got? ==> r.pos == count.next
    ensures r.pos <= |data| || |data| < |MAGIC|
  {
    if |MAGIC| > |data| || data[..|MAGIC|] != MAGIC {
      r := new Reader(data, 0);
      return r, Short;
    }
    r := new Reader(data, |MAGIC|);
    var version := r.TakeU32();
    if version.Short? || version.value != VERSION {
      return r, Short;
    }
    count := r.TakeU32();
    if count.Got? && count.value > MAX_COUNT {
      count := Short;
    }
  }

  function Prepend(docs: seq<Document>, o: Outcome): Outcome {
    Outcome(o.ok, docs + o.docs)
  }

  lemma PrependNext(docs: seq<Document>, d: Document, o: Outcome)
    ensures Prepend(docs, Prepend([d], o)) == Prepend(docs + [d], o)
    ensures Prepend(docs, Outcome(false, [])) == Outcome(false, docs)
    ensures Prepend(docs, Outcome(true, [])) == Outcome(true, docs)
    ensures Prepend([], o) == o
  {
  }

  /** `deserializeDocuments`: on any bytes at all, the reader stays within the data. */
  method DeserializeDocuments(data: bytes) returns (ok: bool, docs: seq<Document>)
    ensures Outcome(ok, docs) == Deserialize(data)
  {
    hide ReadDocument, ReadHeader;
    docs := [];
    var r, count := TakeHeader(data);
    if count.Short? {
      return false, [];
    }
    for i := 0 to count.value
      invariant fresh(r) && r.pos <= |data| && r.data == data
      invariant Deserialize(data) == Prepend(docs, ReadDocuments(data, r.pos, count.value - i))
    {
      ghost var before, left := r.pos, count.value - i;
      assert ReadDocuments(data, before, left) ==
        (var d := ReadDocument(data, before);
         if d.Short? then Outcome(false, []) else Prepend([d.value], ReadDocuments(data, d.next, left - 1)));
      var d := r.TakeDocument();
      if d.Short? {
        return false, docs;
      }
      PrependNext(docs, d.value, ReadDocuments(data, d.next, left - 1));
      docs := docs + [d.value];
    }
    ok := true;
  }

  // ----- Layout -----

  /** The documents whose lengths the format can express. */
  predicate Fits(d: Document) {
    |d.url| < TWO_32 && |d.title| < TWO_32 && |d.snippet| < TWO_32 && |d.content| < TWO_32
  }

  predicate AllFit(docs: seq<Document>) {
    forall i | 0 <= i < |docs| :: Fits(docs[i])
  }

  /** Four bytes hold a number, the least significant first. */
  predicate IsWord(b: bytes, v: nat) {
    |b| == 4 && v == b[0] as int + b[1] as int * 0x100 + b[2] as int * 0x1_0000 + b[3] as int * 0x100_0000
  }

  lemma U32Bytes(v: u32)
    ensures v % 256 + v / 256 % 256 * 256 + v / 65536 % 256 * 65536 + v / 16777216 * 16777216 == v
  {
    assert v / 65536 == v / 256 / 256;
    assert v / 16777216 == v / 65536 / 256;
  }

  lemma WordOf(v: u32)
    ensures IsWord(U32(v), v)
  {
    U32Bytes(v);
  }

  /** A snapshot begins with `SHSE1` and a zero byte, the version 1 and the number of documents. */
  lemma HeaderLayout(docs: seq<Document>) returns (count: bytes)
    requires |docs| < 0x1_0000_0000
    ensures IsWord(count, |docs|)
    ensures Serialize(docs) == [0x53, 0x48, 0x53, 0x45, 0x31, 0x00] + [0x01, 0x00, 0x00, 0x00] + count + Bodies(docs)
  {
    hide Bodies;
    WordOf(|docs|);
    count := U32(|docs|);
  }

  /** The documents follow one after the other. */
  lemma {:induction false} BodiesInOrder(a: seq<Document>, d: Document, b: seq<Document>)
    ensures Bodies(a + [d] + b) == Bodies(a) + SerializeOne(d) + Bodies(b) && Bodies([]) == []
    decreases |b|
  {
    hide SerializeOne;
    if b == [] {
      BodiesAppend(a, d);
      assert a + [d] + b == a + [d];
    } else {
      var front, last := b[..|b| - 1], b[|b| - 1];
      BodiesInOrder(a, d, front);
      assert a + [d] + b == (a + [d] + front) + [last] && b == front + [last];
      BodiesAppend(a + [d] + front, last);
      BodiesAppend(front, last);
    }
  }

  /** A document is its four texts, each behind its length, a byte for the source and the depth. */
  lemma DocumentLayout(d: Document) returns (url: bytes, title: bytes, snippet: bytes, content: bytes, depth: bytes)
    requires Fits(d)
    ensures IsWord(url, |d.url|) && IsWord(title, |d.title|) && IsWord(snippet, |d.snippet|)
    ensures IsWord(content, |d.content|) && IsWord(depth, d.depth)
    ensures SerializeOne(d) ==
            (url + d.url) + (title + d.title) + (snippet + d.snippet) + (content + d.content)
            + [if d.source == Onion then 1 else 0] + depth
  {
    hide U32, IsWord;
    WordOf(|d.url|);
    WordOf(|d.title|);
    WordOf(|d.snippet|);
    WordOf(|d.content|);
    WordOf(d.depth);
    url, title, snippet, content := U32(|d.url|), U32(|d.title|), U32(|d.snippet|), U32(|d.content|);
    depth := U32(d.depth);
    SmallLengths(d);
  }

  lemma SmallLengths(d: Document)
    requires Fits(d)
    ensures |d.url| % TWO_32 == |d.url| && |d.title| % TWO_32 == |d.title|
    ensures |d.snippet| % TWO_32 == |d.snippet| && |d.content| % TWO_32 == |d.content|
  {
  }

  // ----- Round trip -----

  lemma ReadsU32(data: bytes, pos: nat, v: u32)
    requires At(data, pos, U32(v))
    ensures ReadU32(data, pos) == Got(v, pos + 4)
  {
    var w := data[pos..pos + 4];
    assert w == U32(v);
    assert data[pos] == w[0] && data[pos + 1] == w[1] && data[pos + 2] == w[2] && data[pos + 3] == w[3];
    U32Bytes(v);
  }

  lemma ReadsStr(data: bytes, pos: nat, s: bytes)
    requires At(data, pos, Str(s))
    ensures ReadStr(data, pos) == Got(s[..|s| % TWO_32], pos + 4 + |s| % TWO_32)
  {
    AtParts(data, pos, U32(|s| % TWO_32), s);
    ReadsU32(data, pos, |s| % TWO_32);
    var n := |s| % TWO_32;
    assert data[pos + 4..pos + 4 + n] == data[pos + 4..pos + 4 + |s|][..n];
  }

  function WithoutIds(docs: seq<Document>): seq<Document> {
    if docs == [] then [] else [docs[0].Content()] + WithoutIds(docs[1..])
  }

  lemma {:induction false} WithoutIdsAt(docs: seq<Document>, i: nat)
    ensures |WithoutIds(docs)| == |docs|
    ensures i < |docs| ==> WithoutIds(docs)[i] == docs[i].Content()
  {
    if docs != [] {
      WithoutIdsAt(docs[1..], if i == 0 then 0 else i - 1);
    }
  }

  /** Where the fields of one document are written. */
  lemma FieldsAt(data: bytes, pos: nat, d: Document, source: byte)
    requires At(data, pos, WithSource(d, source))
    ensures var one := pos + |Str(d.url)|;
            var two := one + |Str(d.title)|;
            var three := two + |Str(d.snippet)|;
            var four := three + |Str(d.content)|;
            && At(data, pos, Str(d.url))
            && At(data, one, Str(d.title))
            && At(data, two, Str(d.snippet))
            && At(data, three, Str(d.content))
            && At(data, four, [source])
            && At(data, four + 1, U32(d.depth))
  {
    var one := Str(d.url);
    var two := one + Str(d.title);
    var three := two + Str(d.snippet);
    var four := three + Str(d.content);
    hide Str, U32, At;
    AtParts(data, pos, four + [source], U32(d.depth));
    AtParts(data, pos, four, [source]);
    AtParts(data, pos, three, Str(d.content));
    AtParts(data, pos, two, Str(d.snippet));
    AtParts(data, pos, one, Str(d.title));
  }

  lemma ReadsFittingStr(data: bytes, pos: nat, s: bytes)
    requires At(data, pos, Str(s)) && |s| < TWO_32
    ensures ReadStr(data, pos) == Got(s, pos + |Str(s)|)
  {
    ReadsStr(data, pos, s);
    assert |s| % TWO_32 == |s| && s[..|s|] == s;
    hide ReadStr, At;
  }

  lemma StringsRead(data: bytes, pos: nat, d: Document, source: byte)
    requires At(data, pos, WithSource(d, source)) && Fits(d)
    ensures var one := pos + |Str(d.url)|;
            var two := one + |Str(d.title)|;
            var three := two + |Str(d.snippet)|;
            && ReadStr(data, pos) == Got(d.url, one)
            && ReadStr(data, one) == Got(d.title, two)
            && ReadStr(data, two) == Got(d.snippet, three)
            && ReadStr(data, three) == Got(d.content, three + |Str(d.content)|)
  {
    hide At, WithSource, ReadStr, Str;
    FieldsAt(data, pos, d, source);
    ReadsFittingStr(data, pos, d.url);
    ReadsFittingStr(data, pos + |Str(d.url)|, d.title);
    ReadsFittingStr(data, pos + |Str(d.url)| + |Str(d.title)|, d.snippet);
    ReadsFittingStr(data, pos + |Str(d.url)| + |Str(d.title)| + |Str(d.snippet)|, d.content);
  }

  lemma ReadsU8(data: bytes, pos: nat, b: byte)
    requires At(data, pos, [b])
    ensures ReadU8(data, pos) == Got(b, pos + 1)
  {
  }

  /** A source byte of 1 means the onion side, any other the clear web. */
  lemma ReadsWithSource(data: bytes, pos: nat, d: Document, source: byte)
    requires At(data, pos, WithSource(d, source)) && Fits(d)
    ensures ReadDocument(data, pos) ==
            Got(d.Content().(source := if source == 1 then Onion else ClearWeb), pos + |WithSource(d, source)|)
  {
    hide ReadStr, ReadU32, ReadU8, At, Str, Fits, U32;
    FieldsAt(data, pos, d, source);
    StringsRead(data, pos, d, source);
    var four := pos + |Str(d.url)| + |Str(d.title)| + |Str(d.snippet)| + |Str(d.content)|;
    ReadsU8(data, four, source);
    ReadsU32(data, four + 1, d.depth);
    LengthOfU32(d.depth);
  }

  /** One document that fits is read back as it was, without its id, and to its last byte. */
  lemma ReadsDocument(data: bytes, pos: nat, d: Document)
    requires At(data, pos, SerializeOne(d)) && Fits(d)
    ensures ReadDocument(data, pos) == Got(d.Content(), pos + |SerializeOne(d)|)
  {
    hide ReadDocument, At, WithSource;
    ReadsWithSource(data, pos, d, SourceByte(d.source));
  }

  lemma LengthOfU32(v: u32)
    ensures |U32(v)| == 4
  {
  }

  lemma {:induction false} ReadsDocuments(data: bytes, pos: nat, docs: seq<Document>)
    requires At(data, pos, Bodies(docs)) && AllFit(docs)
    ensures ReadDocuments(data, pos, |docs|) == Outcome(true, WithoutIds(docs))
    decreases |docs|
  {
    hide ReadDocument, SerializeOne, At, Fits;
    if docs != [] {
      AtParts(data, pos, SerializeOne(docs[0]), Bodies(docs[1..]));
      ReadsDocument(data, pos, docs[0]);
      ReadsDocuments(data, pos + |SerializeOne(docs[0])|, docs[1..]);
    }
  }

  lemma HeaderAt(docs: seq<Document>, trailing: bytes)
    ensures var data := Serialize(docs) + trailing;
            MAGIC <= data && At(data, 6, U32(VERSION)) && At(data, 10, U32(|docs| % TWO_32))
            && At(data, 14, Bodies(docs)) && |data| == 14 + |Bodies(docs)| + |trailing|
  {
    var data := Serialize(docs) + trailing;
    var v, c, b := U32(VERSION), U32(|docs| % TWO_32), Bodies(docs);
    assert data[..|Serialize(docs)|] == Serialize(docs);
    assert At(data, 0, MAGIC + v + c + b);
    AtParts(data, 0, MAGIC + v + c, b);
    AtParts(data, 0, MAGIC + v, c);
    AtParts(data, 0, MAGIC, v);
  }

  lemma HeaderRead(docs: seq<Document>, trailing: bytes)
    ensures ReadHeader(Serialize(docs) + trailing) ==
            if |docs| % TWO_32 > MAX_COUNT then Short else Got(|docs| % TWO_32, 14)
    ensures At(Serialize(docs) + trailing, 14, Bodies(docs))
  {
    var data := Serialize(docs) + trailing;
    hide ReadU32, At, Serialize, U32, Bodies;
    HeaderAt(docs, trailing);
    ReadsU32(data, 6, VERSION);
    ReadsU32(data, 10, |docs| % TWO_32);
  }

  /** A snapshot is read back whole; bytes after it are not looked at. */
  lemma RoundTrip(docs: seq<Document>, trailing: bytes)
    requires AllFit(docs) && |docs| <= MAX_COUNT
    ensures Deserialize(Serialize(docs) + trailing) == Outcome(true, WithoutIds(docs))
  {
    hide ReadHeader, Serialize, At, AllFit, ReadDocuments;
    assert |docs| % TWO_32 == |docs|;
    HeaderRead(docs, trailing);
    ReadsDocuments(Serialize(docs) + trailing, 14, docs);
  }

  /**
    Saving and loading returns the documents, ids aside, exactly when every field is shorter than 2^32
    bytes and there are at most ten million documents.
    */
  lemma RoundTripExactly(docs: seq<Document>)
    ensures Deserialize(Serialize(docs)) == Outcome(true, WithoutIds(docs)) <==>
            && |docs| <= 10_000_000
            && forall i | 0 <= i < |docs| ::
                 && |docs[i].url| < 0x1_0000_0000 && |docs[i].title| < 0x1_0000_0000
                 && |docs[i].snippet| < 0x1_0000_0000 && |docs[i].content| < 0x1_0000_0000
  {
    FitsExactly(docs);
    hide ReadHeader, Serialize, At, AllFit, ReadDocument;
    var data := Serialize(docs);
    assert data + [] == data;
    HeaderRead(docs, []);
    WithoutIdsAt(docs, 0);
    if AllFit(docs) && |docs| <= MAX_COUNT {
      RoundTrip(docs, []);
    } else if Deserialize(data) == Outcome(true, WithoutIds(docs)) {
      OnlyFittingReadBack(data, 14, docs);
    }
  }

  lemma FitsExactly(docs: seq<Document>)
    ensures AllFit(docs) <==> forall i | 0 <= i < |docs| ::
              && |docs[i].url| < 0x1_0000_0000 && |docs[i].title| < 0x1_0000_0000
              && |docs[i].snippet| < 0x1_0000_0000 && |docs[i].content| < 0x1_0000_0000
  {
  }

  /** A document with a field of 2^32 bytes does not come back. */
  lemma LongFieldIsLost(d: Document)
    requires |d.content| == 0x1_0000_0000
    ensures Deserialize(Serialize([d])) != Outcome(true, WithoutIds([d]))
  {
    hide Serialize, Deserialize, WithoutIds;
    RoundTripExactly([d]);
    assert |[d][0].content| == 0x1_0000_0000;
  }

  lemma OnlyFittingStr(data: bytes, pos: nat, s: bytes)
    requires At(data, pos, Str(s)) && ReadStr(data, pos).Got? && ReadStr(data, pos).value == s
    ensures |s| < TWO_32 && ReadStr(data, pos).next == pos + |Str(s)|
  {
    hide At;
    ReadsStr(data, pos, s);
    hide ReadStr;
  }

  lemma OnlyFittingDocument(data: bytes, pos: nat, d: Document)
    requires At(data, pos, SerializeOne(d))
    requires ReadDocument(data, pos).Got? && ReadDocument(data, pos).value == d.Content()
    ensures Fits(d)
  {
    hide At, Str, ReadStr, ReadU32, ReadU8, U32;
    FieldsAt(data, pos, d, SourceByte(d.source));
    OnlyFittingStr(data, pos, d.url);
    OnlyFittingStr(data, pos + |Str(d.url)|, d.title);
    OnlyFittingStr(data, pos + |Str(d.url)| + |Str(d.title)|, d.snippet);
    OnlyFittingStr(data, pos + |Str(d.url)| + |Str(d.title)| + |Str(d.snippet)|, d.content);
  }

  lemma {:induction false} OnlyFittingReadBack(data: bytes, pos: nat, docs: seq<Document>)
    requires At(data, pos, Bodies(docs))
    requires ReadDocuments(data, pos, |docs|) == Outcome(true, WithoutIds(docs))
    ensures AllFit(docs)
    decreases |docs|
  {
    hide ReadDocument, SerializeOne, At, Fits;
    if docs != [] {
      AtParts(data, pos, SerializeOne(docs[0]), Bodies(docs[1..]));
      var d := ReadDocument(data, pos);
      var rest := ReadDocuments(data, d.next, |docs| - 1);
      assert ([d.value] + rest.docs)[0] == d.value && ([d.value] + rest.docs)[1..] == rest.docs;
      var all := WithoutIds(docs);
      assert all[0] == docs[0].Content() && all[1..] == WithoutIds(docs[1..]);
      OnlyFittingDocument(data, pos, docs[0]);
      ReadsDocument(data, pos, docs[0]);
      OnlyFittingReadBack(data, d.next, docs[1..]);
      assert forall i | 1 <= i < |docs| :: docs[i] == docs[1..][i - 1];
    }
  }

  /** No two document lists are written alike, ids aside. */
  lemma SerializeIsInjective(a: seq<Document>, b: seq<Document>)
    requires AllFit(a) && |a| <= MAX_COUNT && AllFit(b) && |b| <= MAX_COUNT
    requires Serialize(a) == Serialize(b)
    ensures WithoutIds(a) == WithoutIds(b)
  {
    hide Deserialize, Serialize, AllFit;
    RoundTrip(a, []);
    RoundTrip(b, []);
  }

  // ----- Truncation -----

  lemma ReadU32Extends(p: bytes, data: bytes, pos: nat)
    requires p <= data && ReadU32(p, pos).Got?
    ensures ReadU32(data, pos) == ReadU32(p, pos)
  {
  }

  lemma ReadStrExtends(p: bytes, data: bytes, pos: nat)
    requires p <= data && ReadStr(p, pos).Got?
    ensures ReadStr(data, pos) == ReadStr(p, pos)
  {
    ReadU32Extends(p, data, pos);
    var len := ReadU32(p, pos);
    assert p == data[..|p|];
    assert p[len.next..len.next + len.value] == data[len.next..len.next + len.value];
  }

  /** What a prefix of the data can read, the whole data reads the same way. */
  lemma ReadDocumentExtends(p: bytes, data: bytes, pos: nat)
    requires p <= data && ReadDocument(p, pos).Got?
    ensures ReadDocument(data, pos) == ReadDocument(p, pos)
  {
    var url := ReadStr(p, pos);
    ReadStrExtends(p, data, pos);
    var title := ReadStr(p, url.next);
    ReadStrExtends(p, data, url.next);
    var snippet := ReadStr(p, title.next);
    ReadStrExtends(p, data, title.next);
    var content := ReadStr(p, snippet.next);
    ReadStrExtends(p, data, snippet.next);
    hide ReadStr, ReadU32;
    ReadU32Extends(p, data, ReadU8(p, content.next).next);
  }

  lemma {:induction false} CompleteReadNeedsAll(p: bytes, data: bytes, pos: nat, docs: seq<Document>)
    requires p <= data && At(data, pos, Bodies(docs)) && AllFit(docs) && pos <= |p|
    requires ReadDocuments(p, pos, |docs|).ok
    ensures pos + |Bodies(docs)| <= |p|
    decreases |docs|
  {
    hide ReadDocument, SerializeOne, At, Fits;
    if docs != [] {
      AtParts(data, pos, SerializeOne(docs[0]), Bodies(docs[1..]));
      ReadDocumentExtends(p, data, pos);
      ReadsDocument(data, pos, docs[0]);
      CompleteReadNeedsAll(p, data, pos + |SerializeOne(docs[0])|, docs[1..]);
    }
  }

  lemma ReadHeaderExtends(p: bytes, data: bytes)
    requires p <= data && ReadHeader(p).Got?
    ensures ReadHeader(data) == ReadHeader(p)
  {
    ReadU32Extends(p, data, |MAGIC|);
    ReadU32Extends(p, data, ReadU32(p, |MAGIC|).next);
  }

  /** Every snapshot cut short, wherever the cut, is refused. */
  lemma PrefixesAreRefused(docs: seq<Document>, n: nat)
    requires AllFit(docs) && |docs| <= MAX_COUNT
    requires n < |Serialize(docs)|
    ensures !Deserialize(Serialize(docs)[..n]).ok
  {
    hide ReadHeader, At, AllFit, ReadDocuments, Serialize, Bodies;
    var data := Serialize(docs);
    var p := data[..n];
    assert data + [] == data;
    HeaderAt(docs, []);
    HeaderRead(docs, []);
    if ReadHeader(p).Got? {
      ReadHeaderExtends(p, data);
      if ReadDocuments(p, 14, |docs|).ok {
        CompleteReadNeedsAll(p, data, 14, docs);
      }
    }
  }
}
