/**
  What JSON documents denote, stated on the texts themselves (RFC 8259): a grammar of its own, with every byte
  written out. A document is a tree that keeps what was written, white space included. The parser of
  src/json.cpp reads exactly these texts.
  */
module JsonGrammar {
  import opened Bytes
  import opened JsonNumerals
  import opened JsonParser
  import opened JsonPrinter
  import opened JsonStrings
  import Utf8

  datatype Doc =
    | NullWord
    | TrueWord
    | FalseWord
    | Num(n: Numeral)
    | Str(pieces: seq<Piece>)
    | Arr(items: seq<Item>, space: bytes)
    | Obj(entries: seq<Entry>, space: bytes)

  datatype Item = Item(before: bytes, doc: Doc, after: bytes)

  datatype Entry = Entry(before: bytes, key: seq<Piece>, middle: bytes, gap: bytes, doc: Doc, after: bytes)

  predicate IsBlank(s: bytes) {
    forall i | 0 <= i < |s| :: s[i] == 0x20 || s[i] == 0x09 || s[i] == 0x0A || s[i] == 0x0D
  }

  // ----- Well-formed documents -----

  predicate Valid(d: Doc)
    decreases d, 1
  {
    match d
    case Num(n) => n.Valid()
    case Str(pieces) => AllValid(pieces)
    case Arr(items, space) => IsBlank(space) && ValidItems(items)
    case Obj(entries, space) => IsBlank(space) && ValidEntries(entries)
    case _ => true
  }

  predicate ValidItem(i: Item)
    decreases i, 2
  {
    IsBlank(i.before) && Valid(i.doc) && IsBlank(i.after)
  }

  predicate ValidItems(items: seq<Item>)
    decreases items, 0
  {
    items == [] || (ValidItem(items[0]) && ValidItems(items[1..]))
  }

  predicate ValidEntry(e: Entry)
    decreases e, 2
  {
    && IsBlank(e.before) && AllValid(e.key) && IsBlank(e.middle) && IsBlank(e.gap)
    && Valid(e.doc) && IsBlank(e.after)
  }

  predicate ValidEntries(entries: seq<Entry>)
    decreases entries, 0
  {
    entries == [] || (ValidEntry(entries[0]) && ValidEntries(entries[1..]))
  }

  // ----- What is written -----

  function Text(d: Doc): bytes
    requires Valid(d)
    decreases d, 1
  {
    match d
    case NullWord => [0x6E, 0x75, 0x6C, 0x6C]
    case TrueWord => [0x74, 0x72, 0x75, 0x65]
    case FalseWord => [0x66, 0x61, 0x6C, 0x73, 0x65]
    case Num(n) => n.Text()
    case Str(pieces) => StringText(pieces)
    case Arr(items, space) => [0x5B] + if items == [] then space + [0x5D] else ItemsText(items)
    case Obj(entries, space) => [0x7B] + if entries == [] then space + [0x7D] else EntriesText(entries)
  }

  function StringText(pieces: seq<Piece>): bytes
    requires AllValid(pieces)
  {
    [0x22] + Spelled(pieces) + [0x22]
  }

  function ItemText(i: Item): bytes
    requires ValidItem(i)
    decreases i, 2
  {
    i.before + (Text(i.doc) + i.after)
  }

  /** The items with their commas, up to the closing bracket. */
  function ItemsText(items: seq<Item>): bytes
    requires ValidItems(items) && items != []
    decreases items, 0
  {
    ItemText(items[0]) + if |items| == 1 then [0x5D] else [0x2C] + ItemsText(items[1..])
  }

  function EntryText(e: Entry): bytes
    requires ValidEntry(e)
    decreases e, 2
  {
    e.before + (StringText(e.key) + (e.middle + ([0x3A] + (e.gap + (Text(e.doc) + e.after)))))
  }

  function EntriesText(entries: seq<Entry>): bytes
    requires ValidEntries(entries) && entries != []
    decreases entries, 0
  {
    EntryText(entries[0]) + if |entries| == 1 then [0x7D] else [0x2C] + EntriesText(entries[1..])
  }

  // ----- What it means -----

  function Meaning(d: Doc): Value
    requires Valid(d)
    decreases d, 1
  {
    match d
    case NullWord => Null
    case TrueWord => Bool(true)
    case FalseWord => Bool(false)
    case Num(n) => Number(n.Value())
    case Str(pieces) => String(Meant(pieces))
    case Arr(items, _) => Array(ItemsMeaning(items))
    case Obj(entries, _) => Object(EntriesMeaning(entries))
  }

  function ItemMeaning(i: Item): Value
    requires ValidItem(i)
    decreases i, 2
  {
    Meaning(i.doc)
  }

  function ItemsMeaning(items: seq<Item>): (r: seq<Value>)
    requires ValidItems(items)
    ensures |r| == |items|
    decreases items, 0
  {
    if items == [] then [] else [ItemMeaning(items[0])] + ItemsMeaning(items[1..])
  }

  function EntryMeaning(e: Entry): Member
    requires ValidEntry(e)
    decreases e, 2
  {
    Member(Meant(e.key), Meaning(e.doc))
  }

  /** A repeated key is kept, in order. */
  function EntriesMeaning(entries: seq<Entry>): (r: seq<Member>)
    requires ValidEntries(entries)
    ensures |r| == |entries|
    decreases entries, 0
  {
    if entries == [] then [] else [EntryMeaning(entries[0])] + EntriesMeaning(entries[1..])
  }

  // ----- White space -----

  lemma SkipNothing(s: bytes, p: nat)
    requires p <= |s| && (p < |s| ==> !IsSpace(s[p]))
    ensures SkipWs(s, p) == p
  {
  }

  lemma {:induction false} SkipTwice(s: bytes, p: nat)
    requires p <= |s|
    ensures SkipWs(s, SkipWs(s, p)) == SkipWs(s, p)
    decreases |s| - p
  {
    if p < |s| && IsSpace(s[p]) {
      SkipTwice(s, p + 1);
    }
  }

  lemma {:induction false} SkipBlank(s: bytes, p: nat, blank: bytes)
    requires IsBlank(blank) && At(s, p, blank)
    ensures SkipWs(s, p) == SkipWs(s, p + |blank|)
    decreases |blank|
  {
    if blank != [] {
      assert blank == [blank[0]] + blank[1..];
      AtParts(s, p, [blank[0]], blank[1..]);
      AtFirst(s, p, [blank[0]]);
      SkipBlank(s, p + 1, blank[1..]);
    }
  }

  /** White space in front of something else is skipped. */
  lemma SkipTo(s: bytes, p: nat, blank: bytes)
    requires IsBlank(blank) && At(s, p, blank)
    requires p + |blank| < |s| ==> !IsSpace(s[p + |blank|])
    ensures SkipWs(s, p) == p + |blank| <= |s|
  {
    hide SkipWs;
    SkipBlank(s, p, blank);
    SkipNothing(s, p + |blank|);
  }

  lemma {:induction false} SkippedIsBlank(s: bytes, p: nat)
    requires p <= |s|
    ensures IsBlank(s[p..SkipWs(s, p)]) && At(s, p, s[p..SkipWs(s, p)])
    decreases |s| - p
  {
    if p < |s| && IsSpace(s[p]) {
      SkippedIsBlank(s, p + 1);
      assert s[p..SkipWs(s, p)] == [s[p]] + s[p + 1..SkipWs(s, p + 1)];
    }
  }

  // ----- Every document is read as what it means -----

  lemma FirstByte(d: Doc)
    requires Valid(d)
    ensures Text(d) != [] && !IsSpace(Text(d)[0]) && Text(d)[0] != CLOSE_BRACKET && Text(d)[0] != CLOSE_BRACE
  {
    hide Spelled, ItemsText, EntriesText;
    if d.Num? {
      assert d.n.negative || d.n.Text()[0] == d.n.whole[0];
    }
  }

  lemma WordReads(s: bytes, p: nat, d: Doc)
    requires (d.NullWord? || d.TrueWord? || d.FalseWord?) && At(s, p, Text(d))
    ensures ParseValue(s, p) == Ok(Meaning(d), p + |Text(d)|)
  {
    hide ParseNumber, ParseString, ParseArray, ParseObject;
    AtFirst(s, p, Text(d));
    SkipNothing(s, p);
  }

  lemma NumReads(s: bytes, p: nat, n: Numeral)
    requires n.Valid() && At(s, p, n.Text()) && Terminates(s, p + |n.Text()|)
    ensures ParseValue(s, p) == Ok(Number(n.Value()), p + |n.Text()|)
  {
    hide ParseNumber, ParseString, ParseArray, ParseObject, Numeral.Text, Numeral.Value, Terminates;
    NumeralParses(s, p, n);
    SkipNothing(s, p);
  }

  lemma StrReads(s: bytes, p: nat, pieces: seq<Piece>)
    requires AllValid(pieces) && At(s, p, StringText(pieces))
    ensures p < |s| && s[p] == QUOTE
    ensures ParseString(s, p) == Ok(Meant(pieces), p + |StringText(pieces)|)
    ensures ParseValue(s, p) == Ok(String(Meant(pieces)), p + |StringText(pieces)|)
  {
    hide ParseNumber, ParseString, ParseArray, ParseObject, Spelled, Meant;
    SpelledIsRead(s, p, pieces);
    AtFirst(s, p, StringText(pieces));
    SkipNothing(s, p);
  }

  lemma BracketReads(s: bytes, p: nat)
    requires p < |s|
    ensures s[p] == 0x5B ==> ParseValue(s, p) == ParseArray(s, p)
    ensures s[p] == 0x7B ==> ParseValue(s, p) == ParseObject(s, p)
  {
    hide ParseArray, ParseObject, ParseNumber, ParseString;
    if s[p] == 0x5B || s[p] == 0x7B {
      SkipNothing(s, p);
    }
  }

  /** Whatever is written at a position is read from it, up to its last byte. */
  lemma {:induction false} DocReads(s: bytes, p: nat, d: Doc)
    requires Valid(d) && At(s, p, Text(d)) && Terminates(s, p + |Text(d)|)
    ensures ParseValue(s, p) == Ok(Meaning(d), p + |Text(d)|)
    decreases d, 1
  {
    hide Terminates, ItemsText, EntriesText, StringText, ItemsMeaning, EntriesMeaning;
    hide ParseArray, ParseObject, ParseValue;
    match d
    case Num(n) => NumReads(s, p, n);
    case Str(pieces) => StrReads(s, p, pieces);
    case Arr(items, space) =>
      ArrReads(s, p, items, space);
      BracketReads(s, p);
    case Obj(entries, space) =>
      ObjReads(s, p, entries, space);
      BracketReads(s, p);
    case _ => WordReads(s, p, d);
  }

  // ----- Arrays -----

  lemma ElementStep(s: bytes, p: nat, p1: nat, v: Value, p2: nat, q: nat, done: seq<Value>)
    requires p <= |s| && p1 <= |s| && p2 <= |s|
    requires SkipWs(s, p) == p1 && ParseValue(s, p1) == Ok(v, p2) && SkipWs(s, p2) == q < |s|
    ensures s[q] == CLOSE_BRACKET ==> ParseElements(s, p, done) == Ok(Array(done + [v]), q + 1)
    ensures s[q] == COMMA ==> ParseElements(s, p, done) == ParseElements(s, q + 1, done + [v])
  {
    hide ParseValue, SkipWs;
  }

  /** Where the parts of an item stand. */
  lemma ItemLayout(s: bytes, p: nat, i: Item, rest: bytes) returns (p1: nat, p2: nat)
    requires ValidItem(i) && At(s, p, ItemText(i) + rest) && rest != [] && (rest[0] == 0x5D || rest[0] == 0x2C)
    ensures p1 == p + |i.before| && p2 == p1 + |Text(i.doc)|
    ensures SkipWs(s, p) == p1 == SkipWs(s, p1) && p1 < |s| && s[p1] != CLOSE_BRACKET && p2 <= |s|
    ensures At(s, p1, Text(i.doc)) && Terminates(s, p2)
    ensures SkipWs(s, p2) == p + |ItemText(i)| && At(s, p + |ItemText(i)|, rest)
  {
    hide Text, SkipWs, IsBlank, Terminates;
    var t, q := Text(i.doc), p + |ItemText(i)|;
    p1 := p + |i.before|;
    p2 := p1 + |t|;
    AtParts(s, p, ItemText(i), rest);
    AtParts(s, p, i.before, t + i.after);
    AtParts(s, p1, t, i.after);
    FirstByte(i.doc);
    AtFirst(s, p1, t);
    SkipTo(s, p, i.before);
    SkipNothing(s, p1);
    AtFirst(s, q, rest);
    SkipTo(s, p2, i.after);
    BlankTerminates(s, p2, i.after, q);
  }

  lemma BlankTerminates(s: bytes, p: nat, blank: bytes, q: nat)
    requires IsBlank(blank) && At(s, p, blank) && q == p + |blank|
    requires q < |s| ==> s[q] == 0x5D || s[q] == 0x7D || s[q] == 0x2C
    ensures Terminates(s, p)
  {
    if blank != [] {
      AtFirst(s, p, blank);
    }
  }

  lemma {:induction false} ItemsRead(s: bytes, p: nat, items: seq<Item>, done: seq<Value>)
    requires items != [] && ValidItems(items) && At(s, p, ItemsText(items))
    ensures ParseElements(s, p, done) == Ok(Array(done + ItemsMeaning(items)), p + |ItemsText(items)|)
    ensures var q := SkipWs(s, p); q < |s| && s[q] != CLOSE_BRACKET
    decreases items, 0
  {
    hide Text, ItemText, ItemsMeaning, Terminates, ParseValue, ParseElements, SkipWs, Advances, Meaning, At, Valid;
    var rest := if |items| == 1 then [0x5D] else [0x2C] + ItemsText(items[1..]);
    var p1, p2 := ItemLayout(s, p, items[0], rest);
    DocReads(s, p1, items[0].doc);
    var q := p + |ItemText(items[0])|;
    AtFirst(s, q, rest);
    var v := Meaning(items[0].doc);
    ElementStep(s, p, p1, v, p2, q, done);
    FirstItem(items);
    if |items| > 1 {
      AtParts(s, q, [0x2C], ItemsText(items[1..]));
      ItemsRead(s, q + 1, items[1..], done + [v]);
      assert done + [v] + ItemsMeaning(items[1..]) == done + ([v] + ItemsMeaning(items[1..]));
    }
  }

  lemma FirstItem(items: seq<Item>)
    requires items != [] && ValidItems(items)
    ensures ItemsMeaning(items) == [ItemMeaning(items[0])] + ItemsMeaning(items[1..])
    ensures |items| == 1 ==> ItemsMeaning(items) == [ItemMeaning(items[0])]
  {
    hide ItemMeaning, ValidItem;
  }

  /** Leading white space makes no difference to the elements. */
  lemma ElementsIgnoreSpace(s: bytes, p: nat)
    requires p <= |s|
    ensures ParseElements(s, SkipWs(s, p), []) == ParseElements(s, p, [])
  {
    hide SkipWs, ParseValue;
    SkipTwice(s, p);
  }

  lemma {:induction false} ArrReads(s: bytes, p: nat, items: seq<Item>, space: bytes)
    requires Valid(Arr(items, space)) && At(s, p, Text(Arr(items, space)))
    ensures p < |s| && s[p] == 0x5B
    ensures ParseArray(s, p) == Ok(Array(ItemsMeaning(items)), p + |Text(Arr(items, space))|)
    decreases items, 1
  {
    hide ItemsText, ParseElements, At, SkipWs, Advances, ValidItems, IsBlank;
    AtFirst(s, p, Text(Arr(items, space)));
    if items == [] {
      AtParts(s, p, [0x5B], space + [0x5D]);
      AtParts(s, p + 1, space, [0x5D]);
      AtFirst(s, p + 1 + |space|, [0x5D]);
      SkipTo(s, p + 1, space);
    } else {
      AtParts(s, p, [0x5B], ItemsText(items));
      ItemsRead(s, p + 1, items, []);
      ElementsIgnoreSpace(s, p + 1);
      assert [] + ItemsMeaning(items) == ItemsMeaning(items);
    }
  }

  // ----- Objects -----

  lemma MemberStep(s: bytes, p: nat, m: Member, p2: nat, q: nat, done: seq<Member>)
    requires p <= |s| && p2 <= |s|
    requires ParseMember(s, p) == Ok(m, p2) && SkipWs(s, p2) == q < |s|
    ensures s[q] == CLOSE_BRACE ==> ParseMembers(s, p, done) == Ok(Object(done + [m]), q + 1)
    ensures s[q] == COMMA ==> ParseMembers(s, p, done) == ParseMembers(s, q + 1, done + [m])
  {
    hide ParseMember, SkipWs;
  }

  lemma EntryLayout(s: bytes, p: nat, e: Entry, rest: bytes) returns (p1: nat, p2: nat, p3: nat, p4: nat)
    requires ValidEntry(e) && At(s, p, EntryText(e) + rest) && rest != [] && (rest[0] == 0x7D || rest[0] == 0x2C)
    ensures p1 == p + |e.before| && p2 == p1 + |StringText(e.key)| + |e.middle|
    ensures p3 == p2 + 1 + |e.gap| && p4 == p3 + |Text(e.doc)|
    ensures SkipWs(s, p) == p1 < |s| && s[p1] == 0x22 && At(s, p1, StringText(e.key))
    ensures SkipWs(s, p1 + |StringText(e.key)|) == p2 < |s| && s[p2] == 0x3A
    ensures SkipWs(s, p2 + 1) == p3 <= p4 <= |s| && At(s, p3, Text(e.doc)) && Terminates(s, p4)
    ensures SkipWs(s, p4) == p + |EntryText(e)| && At(s, p + |EntryText(e)|, rest)
  {
    hide Text, SkipWs, IsBlank, Terminates, StringText, At;
    var key, t, q := StringText(e.key), Text(e.doc), p + |EntryText(e)|;
    p1, p2 := p + |e.before|, p + |e.before| + |key| + |e.middle|;
    p3, p4 := p2 + 1 + |e.gap|, p2 + 1 + |e.gap| + |t|;
    var behind := [0x3A] + (e.gap + (t + e.after));
    AtParts(s, p, EntryText(e), rest);
    AtParts(s, p, e.before, key + (e.middle + behind));
    AtParts(s, p1, key, e.middle + behind);
    AtParts(s, p1 + |key|, e.middle, behind);
    AtParts(s, p2, [0x3A], e.gap + (t + e.after));
    AtParts(s, p2 + 1, e.gap, t + e.after);
    AtParts(s, p3, t, e.after);
    EntryEnds(s, p1, e.key, p2, p3, e.doc, q, rest);
    SkipTo(s, p, e.before);
    SkipTo(s, p1 + |key|, e.middle);
    SkipTo(s, p2 + 1, e.gap);
    SkipTo(s, p4, e.after);
    BlankTerminates(s, p4, e.after, q);
  }

  /** The bytes at which the parts of an entry begin. */
  lemma EntryEnds(s: bytes, p1: nat, key: seq<Piece>, p2: nat, p3: nat, d: Doc, q: nat, rest: bytes)
    requires AllValid(key) && At(s, p1, StringText(key)) && At(s, p2, [0x3A]) && Valid(d) && At(s, p3, Text(d))
    requires At(s, q, rest) && rest != [] && (rest[0] == 0x7D || rest[0] == 0x2C)
    ensures p1 < |s| && s[p1] == 0x22 && p2 < |s| && s[p2] == 0x3A && p3 < |s| && !IsSpace(s[p3])
    ensures p3 + |Text(d)| <= |s| && q < |s| && s[q] == rest[0]
  {
    hide Text, Spelled;
    FirstByte(d);
    AtFirst(s, p1, StringText(key));
    AtFirst(s, p2, [0x3A]);
    AtFirst(s, p3, Text(d));
    AtFirst(s, q, rest);
  }

  lemma MemberOf(s: bytes, p: nat, p1: nat, key: bytes, k: nat, p2: nat, p3: nat, v: Value, p4: nat)
    requires p <= |s| && SkipWs(s, p) == p1 <= |s| && ParseString(s, p1) == Ok(key, k) && k <= |s|
    requires SkipWs(s, k) == p2 < |s| && s[p2] == 0x3A
    requires SkipWs(s, p2 + 1) == p3 <= |s| && ParseValue(s, p3) == Ok(v, p4)
    ensures ParseMember(s, p) == Ok(Member(key, v), p4)
  {
    hide ParseString, ParseValue, SkipWs;
  }

  lemma {:induction false} EntriesRead(s: bytes, p: nat, entries: seq<Entry>, done: seq<Member>)
    requires entries != [] && ValidEntries(entries) && At(s, p, EntriesText(entries))
    ensures ParseMembers(s, p, done) == Ok(Object(done + EntriesMeaning(entries)), p + |EntriesText(entries)|)
    ensures var q := SkipWs(s, p); q < |s| && s[q] != CLOSE_BRACE
    decreases entries, 0
  {
    hide Text, EntryText, EntriesMeaning, Terminates, ParseValue, ParseMember, ParseMembers, SkipWs, Advances, Meaning;
    hide At, StringText, Valid, AllValid;
    var e := entries[0];
    var rest := if |entries| == 1 then [0x7D] else [0x2C] + EntriesText(entries[1..]);
    var p1, p2, p3, p4 := EntryLayout(s, p, e, rest);
    StrReads(s, p1, e.key);
    DocReads(s, p3, e.doc);
    MemberOf(s, p, p1, Meant(e.key), p1 + |StringText(e.key)|, p2, p3, Meaning(e.doc), p4);
    var q := p + |EntryText(e)|;
    AtFirst(s, q, rest);
    var m := EntryMeaning(e);
    MemberStep(s, p, m, p4, q, done);
    FirstEntry(entries);
    if |entries| > 1 {
      AtParts(s, q, [0x2C], EntriesText(entries[1..]));
      EntriesRead(s, q + 1, entries[1..], done + [m]);
      assert done + [m] + EntriesMeaning(entries[1..]) == done + ([m] + EntriesMeaning(entries[1..]));
    }
  }

  lemma FirstEntry(entries: seq<Entry>)
    requires entries != [] && ValidEntries(entries)
    ensures EntriesMeaning(entries) == [EntryMeaning(entries[0])] + EntriesMeaning(entries[1..])
    ensures |entries| == 1 ==> EntriesMeaning(entries) == [EntryMeaning(entries[0])]
  {
    hide EntryMeaning, ValidEntry;
  }

  lemma MemberIgnoresSpace(s: bytes, p: nat)
    requires p <= |s|
    ensures ParseMember(s, SkipWs(s, p)) == ParseMember(s, p)
  {
    hide SkipWs, ParseValue, ParseString;
    SkipTwice(s, p);
  }

  /** Leading white space makes no difference to the members. */
  lemma MembersIgnoreSpace(s: bytes, p: nat)
    requires p <= |s|
    ensures ParseMembers(s, SkipWs(s, p), []) == ParseMembers(s, p, [])
  {
    hide SkipWs, ParseMember;
    MemberIgnoresSpace(s, p);
  }

  lemma {:induction false} ObjReads(s: bytes, p: nat, entries: seq<Entry>, space: bytes)
    requires Valid(Obj(entries, space)) && At(s, p, Text(Obj(entries, space)))
    ensures p < |s| && s[p] == 0x7B
    ensures ParseObject(s, p) == Ok(Object(EntriesMeaning(entries)), p + |Text(Obj(entries, space))|)
    decreases entries, 1
  {
    hide EntriesText, ParseMembers, At, SkipWs, Advances, ValidEntries, IsBlank;
    AtFirst(s, p, Text(Obj(entries, space)));
    if entries == [] {
      AtParts(s, p, [0x7B], space + [0x7D]);
      AtParts(s, p + 1, space, [0x7D]);
      AtFirst(s, p + 1 + |space|, [0x7D]);
      SkipTo(s, p + 1, space);
    } else {
      AtParts(s, p, [0x7B], EntriesText(entries));
      EntriesRead(s, p + 1, entries, []);
      MembersIgnoreSpace(s, p + 1);
      assert [] + EntriesMeaning(entries) == EntriesMeaning(entries);
    }
  }

  // ----- Nothing else is read -----

  lemma LiteralIsWord(s: bytes, p: nat) returns (d: Doc)
    requires p < |s| && !IsSpace(s[p]) && (s[p] == 0x74 || s[p] == 0x66 || s[p] == 0x6E) && ParseValue(s, p).Ok?
    ensures Valid(d) && At(s, p, Text(d)) && ParseValue(s, p) == Ok(Meaning(d), p + |Text(d)|)
  {
    hide ParseNumber, ParseString, ParseArray, ParseObject;
    SkipNothing(s, p);
    d := if s[p] == 0x74 then TrueWord else if s[p] == 0x66 then FalseWord else NullWord;
  }

  /** Whatever is read as a value is a document behind white space, and is read as what it means. */
  lemma {:induction false} ValueIsDoc(s: bytes, p: nat) returns (d: Doc)
    requires p <= |s| && ParseValue(s, p).Ok?
    ensures Valid(d) && At(s, SkipWs(s, p), Text(d))
    ensures ParseValue(s, p) == Ok(Meaning(d), SkipWs(s, p) + |Text(d)|)
    decreases |s| - p, 1
  {
    hide ParseNumber, ParseString, ParseArray, ParseObject, ParseLiteral, SkipWs;
    hide StringText, Numeral.Text, Numeral.Value, ItemsText, EntriesText, ItemsMeaning, EntriesMeaning;
    SkipTwice(s, p);
    var q := SkipWs(s, p);
    assert ParseValue(s, p) == ParseValue(s, q);
    if s[q] == 0x7B {
      d := ObjectIsObj(s, q);
    } else if s[q] == 0x5B {
      d := ArrayIsArr(s, q);
    } else if s[q] == 0x22 {
      d := StringIsStr(s, q);
    } else if s[q] == 0x74 || s[q] == 0x66 || s[q] == 0x6E {
      SkippedTo(s, p);
      d := LiteralIsWord(s, q);
    } else {
      d := NumberIsNum(s, q);
    }
  }

  lemma {:induction false} SkippedTo(s: bytes, p: nat)
    requires p <= |s|
    ensures SkipWs(s, p) < |s| ==> !IsSpace(s[SkipWs(s, p)])
    decreases |s| - p
  {
    if p < |s| && IsSpace(s[p]) {
      SkippedTo(s, p + 1);
    }
  }

  lemma StringIsStr(s: bytes, p: nat) returns (d: Doc)
    requires p <= |s| && ParseString(s, p).Ok?
    ensures Valid(d) && At(s, p, Text(d)) && Meaning(d).String?
    ensures ParseString(s, p) == Ok(Meaning(d).s, p + |Text(d)|) && d.Str?
  {
    hide ParseString, Spelled, Meant;
    var r := ParseString(s, p);
    StringExactly(s, p, r.value, r.next);
    var pieces: seq<Piece> :| && AllValid(pieces) && At(s, p, [0x22] + Spelled(pieces) + [0x22])
                              && r.value == Meant(pieces) && r.next == p + |Spelled(pieces)| + 2;
    d := Str(pieces);
  }

  lemma NumberIsNum(s: bytes, p: nat) returns (d: Doc)
    requires p < |s| && (s[p] == MINUS || IsDigit(s[p])) && ParseNumber(s, p).Ok?
    ensures Valid(d) && At(s, p, Text(d)) && ParseNumber(s, p) == Ok(Meaning(d), p + |Text(d)|)
  {
    hide ParseNumber, Numeral.Text, Numeral.Value, Numeral.Valid;
    var n := NumberIsNumeral(s, p);
    d := Num(n);
  }

  lemma EmptyArray(s: bytes, p: nat, q: nat, space: bytes)
    requires p < |s| && s[p] == 0x5B && q == SkipWs(s, p + 1) && q < |s| && s[q] == 0x5D && space == s[p + 1..q]
    ensures IsBlank(space) && At(s, p, Text(Arr([], space))) && q + 1 == p + |Text(Arr([], space))|
  {
    hide SkipWs, IsBlank, At;
    SkippedIsBlank(s, p + 1);
    ByteIs(s, p, 0x5B);
    ByteIs(s, q, 0x5D);
    AtParts(s, p + 1, space, [0x5D]);
    AtParts(s, p, [0x5B], space + [0x5D]);
  }

  lemma {:induction false} ArrayIsArr(s: bytes, p: nat) returns (d: Doc)
    requires p < |s| && s[p] == 0x5B && ParseArray(s, p).Ok?
    ensures Valid(d) && At(s, p, Text(d)) && ParseArray(s, p) == Ok(Meaning(d), p + |Text(d)|)
    decreases |s| - p, 0
  {
    hide SkipWs, ParseElements, ItemsText, ItemsMeaning, IsBlank, At;
    var q := SkipWs(s, p + 1);
    if q < |s| && s[q] == 0x5D {
      d := Arr([], s[p + 1..q]);
      EmptyArray(s, p, q, d.space);
      assert ItemsMeaning([]) == [];
    } else {
      ElementsIgnoreSpace(s, p + 1);
      var items := ElementsAreItems(s, p + 1, []);
      assert [] + ItemsMeaning(items) == ItemsMeaning(items);
      NoBlank();
      d := Arr(items, []);
      ByteIs(s, p, 0x5B);
      AtParts(s, p, [0x5B], ItemsText(items));
    }
  }

  lemma NoBlank()
    ensures IsBlank([])
  {
  }

  /** One round of the element loop. */
  lemma ElementRound(s: bytes, p: nat, done: seq<Value>)
    requires p <= |s| && ParseElements(s, p, done).Ok?
    ensures var p1 := SkipWs(s, p);
            var v := ParseValue(s, p1);
            && v.Ok?
            && var q := SkipWs(s, v.next);
               && q < |s| && (s[q] == 0x5D || s[q] == 0x2C)
               && ParseElements(s, p, done) ==
                    if s[q] == 0x5D then Ok(Array(done + [v.value]), q + 1)
                    else ParseElements(s, q + 1, done + [v.value])
  {
    hide ParseValue, SkipWs;
  }

  lemma {:induction false} ElementsAreItems(s: bytes, p: nat, done: seq<Value>) returns (items: seq<Item>)
    requires p <= |s| && ParseElements(s, p, done).Ok?
    ensures items != [] && ValidItems(items) && At(s, p, ItemsText(items))
    ensures ParseElements(s, p, done) == Ok(Array(done + ItemsMeaning(items)), p + |ItemsText(items)|)
    decreases |s| - p, 2
  {
    hide SkipWs, ParseElements, ParseValue, IsBlank, At, Text, Meaning, Valid, ItemsMeaning;
    ElementRound(s, p, done);
    var p1 := SkipWs(s, p);
    var v := ParseValue(s, p1);
    var q := SkipWs(s, v.next);
    SkipTwice(s, p);
    SkippedIsBlank(s, p);
    SkippedIsBlank(s, v.next);
    var d := ValueIsDoc(s, p1);
    var item := Item(s[p..p1], d, s[v.next..q]);
    ItemAt(s, p, item);
    if s[q] == 0x5D {
      items := [item];
      FirstItem(items);
      ByteIs(s, q, 0x5D);
      AtParts(s, p, ItemText(item), [0x5D]);
    } else {
      var rest := ElementsAreItems(s, q + 1, done + [v.value]);
      items := [item] + rest;
      assert items[1..] == rest;
      ByteIs(s, q, 0x2C);
      AtParts(s, q, [0x2C], ItemsText(rest));
      AtParts(s, p, ItemText(item), [0x2C] + ItemsText(rest));
      FirstItem(items);
      assert done + [v.value] + ItemsMeaning(rest) == done + ([v.value] + ItemsMeaning(rest));
    }
  }

  lemma ByteIs(s: bytes, q: nat, c: byte)
    requires q < |s| && s[q] == c
    ensures At(s, q, [c])
  {
  }

  lemma ItemAt(s: bytes, p: nat, i: Item)
    requires ValidItem(i) && At(s, p, i.before) && At(s, p + |i.before|, Text(i.doc))
    requires At(s, p + |i.before| + |Text(i.doc)|, i.after)
    ensures At(s, p, ItemText(i)) && |ItemText(i)| == |i.before| + |Text(i.doc)| + |i.after|
  {
    hide Text, At;
    AtParts(s, p + |i.before|, Text(i.doc), i.after);
    AtParts(s, p, i.before, Text(i.doc) + i.after);
  }

  lemma EmptyObject(s: bytes, p: nat, q: nat, space: bytes)
    requires p < |s| && s[p] == 0x7B && q == SkipWs(s, p + 1) && q < |s| && s[q] == 0x7D && space == s[p + 1..q]
    ensures IsBlank(space) && At(s, p, Text(Obj([], space))) && q + 1 == p + |Text(Obj([], space))|
  {
    hide SkipWs, IsBlank, At;
    SkippedIsBlank(s, p + 1);
    ByteIs(s, p, 0x7B);
    ByteIs(s, q, 0x7D);
    AtParts(s, p + 1, space, [0x7D]);
    AtParts(s, p, [0x7B], space + [0x7D]);
  }

  lemma {:induction false} ObjectIsObj(s: bytes, p: nat) returns (d: Doc)
    requires p < |s| && s[p] == 0x7B && ParseObject(s, p).Ok?
    ensures Valid(d) && At(s, p, Text(d)) && ParseObject(s, p) == Ok(Meaning(d), p + |Text(d)|)
    decreases |s| - p, 0
  {
    hide SkipWs, ParseMembers, EntriesText, EntriesMeaning, IsBlank, At;
    var q := SkipWs(s, p + 1);
    if q < |s| && s[q] == 0x7D {
      d := Obj([], s[p + 1..q]);
      EmptyObject(s, p, q, d.space);
      assert EntriesMeaning([]) == [];
    } else {
      MembersIgnoreSpace(s, p + 1);
      var entries := MembersAreEntries(s, p + 1, []);
      assert [] + EntriesMeaning(entries) == EntriesMeaning(entries);
      NoBlank();
      d := Obj(entries, []);
      ByteIs(s, p, 0x7B);
      AtParts(s, p, [0x7B], EntriesText(entries));
    }
  }

  lemma MemberRound(s: bytes, p: nat, done: seq<Member>)
    requires p <= |s| && ParseMembers(s, p, done).Ok?
    ensures var m := ParseMember(s, p);
            && m.Ok?
            && var q := SkipWs(s, m.next);
               && q < |s| && (s[q] == 0x7D || s[q] == 0x2C)
               && ParseMembers(s, p, done) ==
                    if s[q] == 0x7D then Ok(Object(done + [m.value]), q + 1)
                    else ParseMembers(s, q + 1, done + [m.value])
  {
    hide ParseMember, SkipWs;
  }

  lemma MemberParts(s: bytes, p: nat)
    requires p <= |s| && ParseMember(s, p).Ok?
    ensures var key := ParseString(s, SkipWs(s, p));
            && key.Ok?
            && var p2 := SkipWs(s, key.next);
               && p2 < |s| && s[p2] == 0x3A
               && var v := ParseValue(s, SkipWs(s, p2 + 1));
                  v.Ok? && ParseMember(s, p) == Ok(Member(key.value, v.value), v.next)
  {
    hide ParseString, ParseValue, SkipWs;
  }

  /** What is read as a member is an entry, up to the white space behind it. */
  lemma {:induction false} MemberIsEntry(s: bytes, p: nat) returns (e: Entry)
    requires p <= |s| && ParseMember(s, p).Ok?
    ensures var r := ParseMember(s, p);
            && ValidEntry(e) && At(s, p, EntryText(e)) && EntryMeaning(e) == r.value
            && p + |EntryText(e)| == SkipWs(s, r.next)
    decreases |s| - p, 2
  {
    hide SkipWs, ParseString, ParseValue, ParseMember, IsBlank, At, StringText, AllValid, Meant, EntryText;
    MemberParts(s, p);
    var p1 := SkipWs(s, p);
    var key := ParseString(s, p1);
    var p2 := SkipWs(s, key.next);
    var p3 := SkipWs(s, p2 + 1);
    var v := ParseValue(s, p3);
    var q := SkipWs(s, v.next);
    SkippedIsBlank(s, p);
    SkippedIsBlank(s, key.next);
    SkippedIsBlank(s, p2 + 1);
    SkippedIsBlank(s, v.next);
    SkipTwice(s, p2 + 1);
    var k := StringIsStr(s, p1);
    var d := ValueIsDoc(s, p3);
    e := Entry(s[p..p1], k.pieces, s[key.next..p2], s[p2 + 1..p3], d, s[v.next..q]);
    ByteIs(s, p2, 0x3A);
    EntryAt(s, p, e);
  }

  lemma EntryAt(s: bytes, p: nat, e: Entry)
    requires ValidEntry(e) && At(s, p, e.before)
    requires var p1 := p + |e.before|;
             var p2 := p1 + |StringText(e.key)| + |e.middle|;
             var p3 := p2 + 1 + |e.gap|;
             && At(s, p1, StringText(e.key)) && At(s, p1 + |StringText(e.key)|, e.middle) && At(s, p2, [0x3A])
             && At(s, p2 + 1, e.gap) && At(s, p3, Text(e.doc)) && At(s, p3 + |Text(e.doc)|, e.after)
    ensures At(s, p, EntryText(e))
    ensures |EntryText(e)| ==
            |e.before| + |StringText(e.key)| + |e.middle| + 1 + |e.gap| + |Text(e.doc)| + |e.after|
  {
    hide Text, At, StringText;
    var p1 := p + |e.before|;
    var p2 := p1 + |StringText(e.key)| + |e.middle|;
    var p3 := p2 + 1 + |e.gap|;
    var x := Text(e.doc) + e.after;
    AtParts(s, p3, Text(e.doc), e.after);
    AtParts(s, p2 + 1, e.gap, x);
    AtParts(s, p2, [0x3A], e.gap + x);
    AtParts(s, p1 + |StringText(e.key)|, e.middle, [0x3A] + (e.gap + x));
    AtParts(s, p1, StringText(e.key), e.middle + ([0x3A] + (e.gap + x)));
    AtParts(s, p, e.before, StringText(e.key) + (e.middle + ([0x3A] + (e.gap + x))));
  }

  lemma {:induction false} MembersAreEntries(s: bytes, p: nat, done: seq<Member>) returns (entries: seq<Entry>)
    requires p <= |s| && ParseMembers(s, p, done).Ok?
    ensures entries != [] && ValidEntries(entries) && At(s, p, EntriesText(entries))
    ensures ParseMembers(s, p, done) == Ok(Object(done + EntriesMeaning(entries)), p + |EntriesText(entries)|)
    decreases |s| - p, 3
  {
    hide SkipWs, ParseMembers, ParseMember, At, EntryText, EntryMeaning, ValidEntry, EntriesMeaning;
    MemberRound(s, p, done);
    var m := ParseMember(s, p);
    var q := SkipWs(s, m.next);
    var e := MemberIsEntry(s, p);
    if s[q] == 0x7D {
      entries := [e];
      FirstEntry(entries);
      ByteIs(s, q, 0x7D);
      AtParts(s, p, EntryText(e), [0x7D]);
    } else {
      var rest := MembersAreEntries(s, q + 1, done + [m.value]);
      entries := [e] + rest;
      assert entries[1..] == rest;
      ByteIs(s, q, 0x2C);
      AtParts(s, q, [0x2C], EntriesText(rest));
      AtParts(s, p, EntryText(e), [0x2C] + EntriesText(rest));
      FirstEntry(entries);
      assert done + [m.value] + EntriesMeaning(rest) == done + ([m.value] + EntriesMeaning(rest));
    }
  }

  // ----- Whole texts -----

  /** A text is read as a value exactly when it is a document that means it, with white space around it. */
  lemma TextExactly(s: bytes, v: Value)
    ensures ParseText(s) == Ok(v, |s|) <==>
            exists before: bytes, d: Doc, after: bytes ::
              IsBlank(before) && Valid(d) && IsBlank(after) && s == before + Text(d) + after && v == Meaning(d)
  {
    hide Text, Meaning, Valid, IsBlank, ParseText, ParseValue;
    if ParseText(s) == Ok(v, |s|) {
      var before, d, after := TextIsDoc(s);
    }
    forall before: bytes, d: Doc, after: bytes |
      IsBlank(before) && Valid(d) && IsBlank(after) && s == before + Text(d) + after
      ensures ParseText(s) == Ok(Meaning(d), |s|)
    {
      DocText(before, d, after);
    }
  }

  /** Success always reaches the end. */
  lemma TextEnds(s: bytes)
    requires ParseText(s).Ok?
    ensures ParseText(s).next == |s|
  {
    hide ParseValue;
  }

  lemma TextIsDoc(s: bytes) returns (before: bytes, d: Doc, after: bytes)
    requires ParseText(s).Ok?
    ensures IsBlank(before) && Valid(d) && IsBlank(after) && s == before + Text(d) + after
    ensures ParseText(s).value == Meaning(d)
  {
    hide ParseValue, SkipWs, Text, Meaning, Valid, IsBlank;
    d := ValueIsDoc(s, 0);
    var p := SkipWs(s, 0);
    var next := p + |Text(d)|;
    SkippedIsBlank(s, 0);
    SkippedIsBlank(s, next);
    before, after := s[0..p], s[next..SkipWs(s, next)];
    assert s == s[0..p] + s[p..next] + s[next..|s|];
  }

  lemma DocText(before: bytes, d: Doc, after: bytes)
    requires IsBlank(before) && Valid(d) && IsBlank(after)
    ensures ParseText(before + Text(d) + after) == Ok(Meaning(d), |before + Text(d) + after|)
  {
    hide Text, Meaning, Valid, IsBlank, ParseValue, SkipWs, Terminates;
    var s, p := before + Text(d) + after, |before|;
    var q := p + |Text(d)|;
    assert At(s, 0, before) && At(s, p, Text(d)) && At(s, q, after);
    FirstByte(d);
    AtFirst(s, p, Text(d));
    SkipTo(s, 0, before);
    SkipTo(s, q, after);
    BlankTerminates(s, q, after, |s|);
    DocReads(s, p, d);
    ValueIgnoresSpace(s, 0);
  }

  lemma ValueIgnoresSpace(s: bytes, p: nat)
    requires p <= |s|
    ensures ParseValue(s, p) == ParseValue(s, SkipWs(s, p))
  {
    hide SkipWs, ParseObject, ParseArray, ParseString, ParseNumber;
    SkipTwice(s, p);
  }

  /** A character beyond the first plane, written as its two UTF-16 units. */
  lemma PairText(cp: nat, high: seq<bool>, low: seq<bool>)
    requires 0x10000 <= cp <= 0x10FFFF && |high| == 4 && |low| == 4
    ensures var text := [0x22, 0x5C, 0x75] + HexText(0xD800 + (cp - 0x10000) / 1024, high)
                        + [0x5C, 0x75] + HexText(0xDC00 + (cp - 0x10000) % 1024, low) + [0x22];
            ParseText(text) == Ok(String(Utf8.Encode(cp)), 14)
  {
    hide HexText, Utf8.Encode, ParseText;
    var h, l := 0xD800 + (cp - 0x10000) / 1024, 0xDC00 + (cp - 0x10000) % 1024;
    var text := [0x22, 0x5C, 0x75] + HexText(h, high) + [0x5C, 0x75] + HexText(l, low) + [0x22];
    HexTextLength(h, high);
    HexTextLength(l, low);
    OnePieceReads(Pair(cp, high, low));
    assert text == [0x22] + Pair(cp, high, low).Text() + [0x22];
  }

  /** A character of the first plane, written as its one unit. */
  lemma UnitText(cp: nat, capitals: seq<bool>)
    requires Utf8.IsScalar(cp) && cp < 0x10000 && |capitals| == 4
    ensures ParseText([0x22, 0x5C, 0x75] + HexText(cp, capitals) + [0x22]) == Ok(String(Utf8.Encode(cp)), 8)
  {
    hide HexText, Utf8.Encode, ParseText;
    HexTextLength(cp, capitals);
    OnePieceReads(Unit(cp, capitals));
    assert [0x22, 0x5C, 0x75] + HexText(cp, capitals) + [0x22] == [0x22] + Unit(cp, capitals).Text() + [0x22];
  }

  lemma OnePieceReads(piece: Piece)
    requires piece.Valid()
    ensures ParseText([0x22] + piece.Text() + [0x22]) == Ok(String(piece.Meaning()), |piece.Text()| + 2)
  {
    hide ParseString, SkipWs;
    var pieces := [piece];
    assert pieces[1..] == [] && Spelled([]) == [] && Meant([]) == [];
    assert piece.Text() + [] == piece.Text() && piece.Meaning() + [] == piece.Meaning();
    var s := [0x22] + Spelled(pieces) + [0x22];
    assert At(s, 0, s);
    SpelledIsRead(s, 0, pieces);
    SkipNothing(s, 0);
    SkipNothing(s, |s|);
  }
}
