/**
  The grammar of well-formed CBOR as trees (section 3 of RFC 8949), and that passing over an item takes exactly the
  octets of one tree.
  */
module Items {
  import opened Wrappers
  import opened ByteStrings
  import opened Cbor
  import opened Heads

  /** A head and the string it announces. */
  datatype Chunk = Chunk(w: Spelling, bytes: Bytes)

  /**
    Each head may be spelled in any width its argument fits. Strings, arrays and maps are of definite length, or
    indefinite (`Open`) and ended by a break.
    */
  datatype Item =
    | Unsigned(w: Spelling, n: nat)
    | Negative(w: Spelling, n: nat)
    | ByteString(bytes: Chunk)
    | OpenByteString(chunks: seq<Chunk>)
    | TextString(text: Chunk)
    | OpenTextString(parts: seq<Chunk>)
    | Array(w: Spelling, items: Items)
    | OpenArray(items: Items)
    | Map(w: Spelling, pairs: Pairs)
    | OpenMap(pairs: Pairs)
    | Tagged(w: Spelling, tag: nat, content: Item)
    | SimpleOrFloat(w: Spelling, n: nat)

  datatype Items = NoItems | Items(head: Item, tail: Items)

  datatype Pairs = NoPairs | Pairs(key: Item, value: Item, rest: Pairs)

  function Count(items: Items): nat {
    if items.NoItems? then 0 else 1 + Count(items.tail)
  }

  function PairCount(pairs: Pairs): nat {
    if pairs.NoPairs? then 0 else 1 + PairCount(pairs.rest)
  }

  predicate ChunkFits(c: Chunk) {
    Fits(c.w, |c.bytes|)
  }

  /** Every argument fits the spelling of its head; a simple value below 32 has no second byte. */
  predicate WellSized(i: Item) {
    match i
    case Unsigned(w, n) => Fits(w, n)
    case Negative(w, n) => Fits(w, n)
    case ByteString(c) => ChunkFits(c)
    case OpenByteString(cs) => forall c :: c in cs ==> ChunkFits(c)
    case TextString(c) => ChunkFits(c)
    case OpenTextString(cs) => forall c :: c in cs ==> ChunkFits(c)
    case Array(w, items) => Fits(w, Count(items)) && AllWellSized(items)
    case OpenArray(items) => AllWellSized(items)
    case Map(w, pairs) => Fits(w, PairCount(pairs)) && PairsWellSized(pairs)
    case OpenMap(pairs) => PairsWellSized(pairs)
    case Tagged(w, tag, content) => Fits(w, tag) && WellSized(content)
    case SimpleOrFloat(w, n) => Fits(w, n) && (w.OneByte? ==> n >= 32)
  }

  predicate AllWellSized(items: Items) {
    items.Items? ==> WellSized(items.head) && AllWellSized(items.tail)
  }

  predicate PairsWellSized(pairs: Pairs) {
    pairs.Pairs? ==> WellSized(pairs.key) && WellSized(pairs.value) && PairsWellSized(pairs.rest)
  }

  function ChunkOctets(major: nat, c: Chunk): Bytes
    requires major < 8 && ChunkFits(c)
  {
    HeadOctets(major, c.w, |c.bytes|) + c.bytes
  }

  function ChunksOctets(major: nat, cs: seq<Chunk>): Bytes
    requires major < 8 && forall c :: c in cs ==> ChunkFits(c)
  {
    if cs == [] then [0xFF] else ChunkOctets(major, cs[0]) + ChunksOctets(major, cs[1..])
  }

  function Octets(i: Item): (b: Bytes)
    requires WellSized(i)
    ensures b != [] && b[0] != 0xFF
  {
    match i
    case Unsigned(w, n) => HeadOctets(0, w, n)
    case Negative(w, n) => HeadOctets(1, w, n)
    case ByteString(c) => ChunkOctets(2, c)
    case OpenByteString(cs) => [0x5F] + ChunksOctets(2, cs)
    case TextString(c) => ChunkOctets(3, c)
    case OpenTextString(cs) => [0x7F] + ChunksOctets(3, cs)
    case Array(w, items) => HeadOctets(4, w, Count(items)) + AllOctets(items)
    case OpenArray(items) => [0x9F] + (AllOctets(items) + [0xFF])
    case Map(w, pairs) => HeadOctets(5, w, PairCount(pairs)) + PairsOctets(pairs)
    case OpenMap(pairs) => [0xBF] + (PairsOctets(pairs) + [0xFF])
    case Tagged(w, tag, content) => HeadOctets(6, w, tag) + Octets(content)
    case SimpleOrFloat(w, n) => HeadOctets(7, w, n)
  }

  function AllOctets(items: Items): Bytes
    requires AllWellSized(items)
  {
    if items.NoItems? then [] else Octets(items.head) + AllOctets(items.tail)
  }

  function PairsOctets(pairs: Pairs): Bytes
    requires PairsWellSized(pairs)
  {
    if pairs.NoPairs? then [] else Octets(pairs.key) + (Octets(pairs.value) + PairsOctets(pairs.rest))
  }

  // ---- Every item is passed over ---------------------------------------------------------

  /** Passing over a head of definite length leads to its content. */
  lemma SkipHead(major: nat, w: Spelling, n: nat, body: Bytes)
    requires major < 8 && Fits(w, n)
    ensures Skip(HeadOctets(major, w, n) + body) == SkipContent(major, SpellingInfo(w, n), n, body)
  {
    hide SkipContent, BigEndian, FixedBytes, HeadOctets;
    SpellingIsRead(major, w, n, body);
    HeadIsDigits(major, w, n);
    var s := HeadOctets(major, w, n) + body;
    assert s[0] == 32 * major + SpellingInfo(w, n);
  }

  lemma OpenHead(first: byte, body: Bytes)
    requires first in {0x5F, 0x7F, 0x9F, 0xBF}
    ensures Skip([first] + body) ==
            if first == 0x5F then SkipChunks(2, body)
            else if first == 0x7F then SkipChunks(3, body)
            else SkipUntilBreak(if first == 0x9F then 1 else 2, body)
  {
    AtBoundary([first], body);
  }

  lemma {:induction false} ChunksAreSkipped(major: nat, cs: seq<Chunk>, r: Bytes)
    requires (major == 2 || major == 3) && forall c :: c in cs ==> ChunkFits(c)
    ensures SkipChunks(major, ChunksOctets(major, cs) + r) == Some(r)
  {
    if cs == [] {
      AtBoundary([0xFF], r);
    } else {
      var later := ChunksOctets(major, cs[1..]);
      ChunksAreSkipped(major, cs[1..], r);
      Assoc(ChunkOctets(major, cs[0]), later, r);
      ChunkIsRead(major, cs[0], later + r);
    }
  }

  lemma ChunkIsRead(major: nat, c: Chunk, r: Bytes)
    requires (major == 2 || major == 3) && ChunkFits(c)
    ensures var s := ChunkOctets(major, c) + r;
            DecString(major, s) == Ok(c.bytes, r) && s != [] && s[0] != 0xFF
  {
    Assoc(HeadOctets(major, c.w, |c.bytes|), c.bytes, r);
    SpellingIsRead(major, c.w, |c.bytes|, c.bytes + r);
    AtBoundary(c.bytes, r);
  }

  lemma StringIsSkipped(major: nat, c: Chunk, r: Bytes)
    requires (major == 2 || major == 3) && ChunkFits(c)
    ensures Skip(ChunkOctets(major, c) + r) == Some(r)
  {
    Assoc(HeadOctets(major, c.w, |c.bytes|), c.bytes, r);
    SkipHead(major, c.w, |c.bytes|, c.bytes + r);
    AtBoundary(c.bytes, r);
  }

  lemma {:induction false} ItemIsSkipped(i: Item, r: Bytes)
    requires WellSized(i)
    ensures Skip(Octets(i) + r) == Some(r)
  {
    hide Skip, HeadOctets, SkipChunks, ChunkOctets, ChunksOctets;
    match i
    case Unsigned(w, n) => SkipHead(0, w, n, r);
    case Negative(w, n) => SkipHead(1, w, n, r);
    case ByteString(c) => StringIsSkipped(2, c, r);
    case OpenByteString(cs) =>
      Assoc([0x5F], ChunksOctets(2, cs), r);
      OpenHead(0x5F, ChunksOctets(2, cs) + r);
      ChunksAreSkipped(2, cs, r);
    case TextString(c) => StringIsSkipped(3, c, r);
    case OpenTextString(cs) =>
      Assoc([0x7F], ChunksOctets(3, cs), r);
      OpenHead(0x7F, ChunksOctets(3, cs) + r);
      ChunksAreSkipped(3, cs, r);
    case Array(w, items) =>
      Assoc(HeadOctets(4, w, Count(items)), AllOctets(items), r);
      SkipHead(4, w, Count(items), AllOctets(items) + r);
      ItemsAreSkipped(items, r);
    case OpenArray(items) =>
      Assoc([0x9F], AllOctets(items) + [0xFF], r);
      OpenHead(0x9F, (AllOctets(items) + [0xFF]) + r);
      OpenItemsAreSkipped(items, r);
    case Map(w, pairs) =>
      Assoc(HeadOctets(5, w, PairCount(pairs)), PairsOctets(pairs), r);
      SkipHead(5, w, PairCount(pairs), PairsOctets(pairs) + r);
      PairsAreSkipped(pairs, r);
    case OpenMap(pairs) =>
      Assoc([0xBF], PairsOctets(pairs) + [0xFF], r);
      OpenHead(0xBF, (PairsOctets(pairs) + [0xFF]) + r);
      OpenPairsAreSkipped(pairs, r);
    case Tagged(w, tag, content) =>
      Assoc(HeadOctets(6, w, tag), Octets(content), r);
      SkipHead(6, w, tag, Octets(content) + r);
      ItemIsSkipped(content, r);
    case SimpleOrFloat(w, n) => SkipHead(7, w, n, r);
  }

  lemma {:induction false} ItemsAreSkipped(items: Items, r: Bytes)
    requires AllWellSized(items)
    ensures SkipItems(Count(items), AllOctets(items) + r) == Some(r)
  {
    hide Skip, Octets;
    if items.NoItems? {
      NothingBefore(r);
    } else {
      var a, later := Octets(items.head), AllOctets(items.tail);
      ItemIsSkipped(items.head, later + r);
      ItemsAreSkipped(items.tail, r);
      Assoc(a, later, r);
    }
  }

  lemma {:induction false} OpenItemsAreSkipped(items: Items, r: Bytes)
    requires AllWellSized(items)
    ensures SkipUntilBreak(1, (AllOctets(items) + [0xFF]) + r) == Some(r)
  {
    hide Skip, Octets;
    if items.NoItems? {
      NothingBefore([0xFF]);
      AtBoundary([0xFF], r);
    } else {
      var a, later := Octets(items.head), AllOctets(items.tail) + [0xFF];
      ItemIsSkipped(items.head, later + r);
      OpenItemsAreSkipped(items.tail, r);
      Assoc(a, AllOctets(items.tail), [0xFF]);
      Assoc(a, later, r);
      OneItem(a + (later + r));
    }
  }

  lemma PairIsSkipped(a: Bytes, b: Bytes, later: Bytes)
    requires Skip(a + (b + later)) == Some(b + later) && Skip(b + later) == Some(later)
    ensures SkipItems(2, a + (b + later)) == Some(later)
  {
    hide Skip;
    OneItem(b + later);
  }

  lemma {:induction false} PairsAreSkipped(pairs: Pairs, r: Bytes)
    requires PairsWellSized(pairs)
    ensures SkipItems(2 * PairCount(pairs), PairsOctets(pairs) + r) == Some(r)
  {
    hide Skip, Octets;
    if pairs.NoPairs? {
      NothingBefore(r);
    } else {
      var a, b, later := Octets(pairs.key), Octets(pairs.value), PairsOctets(pairs.rest);
      ItemIsSkipped(pairs.key, b + (later + r));
      ItemIsSkipped(pairs.value, later + r);
      PairsAreSkipped(pairs.rest, r);
      Assoc(a, b + later, r);
      Assoc(b, later, r);
      PairIsSkipped(a, b, later + r);
      ItemsThenItems(2, 2 * PairCount(pairs.rest), a + (b + (later + r)));
    }
  }

  lemma {:induction false} OpenPairsAreSkipped(pairs: Pairs, r: Bytes)
    requires PairsWellSized(pairs)
    ensures SkipUntilBreak(2, (PairsOctets(pairs) + [0xFF]) + r) == Some(r)
  {
    hide Skip, Octets;
    if pairs.NoPairs? {
      NothingBefore([0xFF]);
      AtBoundary([0xFF], r);
    } else {
      var a, b, later := Octets(pairs.key), Octets(pairs.value), PairsOctets(pairs.rest) + [0xFF];
      ItemIsSkipped(pairs.key, b + (later + r));
      ItemIsSkipped(pairs.value, later + r);
      OpenPairsAreSkipped(pairs.rest, r);
      Assoc(a, b + PairsOctets(pairs.rest), [0xFF]);
      Assoc(b, PairsOctets(pairs.rest), [0xFF]);
      Assoc(a, b + later, r);
      Assoc(b, later, r);
      PairIsSkipped(a, b, later + r);
    }
  }

  // ---- Whatever is passed over is an item ----------------------------------------------------

  lemma HeadAt(s: Bytes)
    requires s != [] && s[0] % 32 != 31 && Skip(s).Some?
    ensures ReadHead(s[0] / 32, s).Ok?
    ensures var p, w := ReadHead(s[0] / 32, s), SpellingOf(s);
            && Fits(w, p.value) && s == HeadOctets(s[0] / 32, w, p.value) + p.rest
            && SpellingInfo(w, p.value) == s[0] % 32
            && Skip(s) == SkipContent(s[0] / 32, s[0] % 32, p.value, p.rest) && |p.rest| < |s|
  {
    hide SkipContent, BigEndian, FixedBytes, HeadOctets;
    ReadIsSpelled(s[0] / 32, s);
    ArgumentFits(s[0] % 32, s[1..]);
  }

  lemma StringAt(major: nat, s: Bytes) returns (c: Chunk)
    requires (major == 2 || major == 3) && DecString(major, s).Ok?
    ensures ChunkFits(c) && s == ChunkOctets(major, c) + DecString(major, s).rest
  {
    var p := ReadHead(major, s);
    var b := p.rest[..p.value];
    c := Chunk(SpellingOf(s), b);
    ReadIsSpelled(major, s);
    assert p.rest == b + p.rest[p.value..];
    Assoc(HeadOctets(major, c.w, |b|), b, p.rest[p.value..]);
  }

  lemma {:induction false} ChunksAt(major: nat, s: Bytes) returns (cs: seq<Chunk>)
    requires (major == 2 || major == 3) && SkipChunks(major, s).Some?
    ensures forall c :: c in cs ==> ChunkFits(c)
    ensures s == ChunksOctets(major, cs) + SkipChunks(major, s).value
    decreases |s|
  {
    hide ReadHead, ChunkOctets;
    if s[0] == 0xFF {
      cs := [];
      assert s == [0xFF] + s[1..];
    } else {
      var c := StringAt(major, s);
      var r := DecString(major, s).rest;
      var later := ChunksAt(major, r);
      cs := [c] + later;
      assert cs[1..] == later;
      Assoc(ChunkOctets(major, c), ChunksOctets(major, later), SkipChunks(major, s).value);
    }
  }

  lemma StringHeadAt(major: nat, s: Bytes)
    requires (major == 2 || major == 3) && s != [] && s[0] / 32 == major && s[0] % 32 != 31 && Skip(s).Some?
    ensures DecString(major, s).Ok? && DecString(major, s).rest == Skip(s).value
  {
    HeadAt(s);
  }

  /** The first octet tells definite from indefinite length and selects the production. */
  lemma OpenAt(s: Bytes)
    requires s != [] && s[0] % 32 == 31 && Skip(s).Some?
    ensures s[0] in {0x5F, 0x7F, 0x9F, 0xBF} && s == [s[0]] + s[1..]
  {
  }

  lemma {:induction false} ItemAt(s: Bytes) returns (i: Item)
    requires Skip(s).Some?
    ensures WellSized(i) && s == Octets(i) + Skip(s).value
    decreases |s|, 1
  {
    if s[0] % 32 == 31 {
      i := OpenItemAt(s);
    } else {
      i := DefiniteItemAt(s);
    }
  }

  lemma {:induction false} OpenItemAt(s: Bytes) returns (i: Item)
    requires s != [] && s[0] % 32 == 31 && Skip(s).Some?
    ensures WellSized(i) && s == Octets(i) + Skip(s).value
    decreases |s|, 0
  {
    hide Skip, SkipChunks, SkipUntilBreak, ChunksOctets;
    var body, r := s[1..], Skip(s).value;
    OpenAt(s);
    OpenHead(s[0], body);
    if s[0] == 0x5F {
      var cs := ChunksAt(2, body);
      i := OpenByteString(cs);
      Assoc([0x5F], ChunksOctets(2, cs), r);
    } else if s[0] == 0x7F {
      var cs := ChunksAt(3, body);
      i := OpenTextString(cs);
      Assoc([0x7F], ChunksOctets(3, cs), r);
    } else if s[0] == 0x9F {
      var items := OpenItemsAt(body);
      i := OpenArray(items);
      Assoc([0x9F], AllOctets(items) + [0xFF], r);
    } else {
      var pairs := OpenPairsAt(body);
      i := OpenMap(pairs);
      Assoc([0xBF], PairsOctets(pairs) + [0xFF], r);
    }
  }

  lemma {:induction false} DefiniteItemAt(s: Bytes) returns (i: Item)
    requires s != [] && s[0] % 32 != 31 && Skip(s).Some?
    ensures WellSized(i) && s == Octets(i) + Skip(s).value
    decreases |s|, 0
  {
    hide Skip, HeadOctets, ReadHead, ChunkOctets;
    var major, w := s[0] / 32, SpellingOf(s);
    HeadAt(s);
    var n, body, r := ReadHead(major, s).value, ReadHead(major, s).rest, Skip(s).value;
    if major == 0 {
      i := Unsigned(w, n);
    } else if major == 1 {
      i := Negative(w, n);
    } else if major == 2 || major == 3 {
      StringHeadAt(major, s);
      var c := StringAt(major, s);
      i := if major == 2 then Item.ByteString(c) else Item.TextString(c);
    } else if major == 4 {
      var items := ItemsAt(n, body);
      i := Item.Array(w, items);
      Assoc(HeadOctets(4, w, n), AllOctets(items), r);
    } else if major == 5 {
      var pairs := PairsAt(n, body);
      i := Map(w, pairs);
      Assoc(HeadOctets(5, w, n), PairsOctets(pairs), r);
    } else if major == 6 {
      var content := ItemAt(body);
      i := Tagged(w, n, content);
      Assoc(HeadOctets(6, w, n), Octets(content), r);
    } else {
      i := SimpleOrFloat(w, n);
    }
  }

  lemma {:induction false} ItemsAt(n: nat, s: Bytes) returns (items: Items)
    requires SkipItems(n, s).Some?
    ensures AllWellSized(items) && Count(items) == n && s == AllOctets(items) + SkipItems(n, s).value
    decreases |s|, 2
  {
    hide Skip, Octets;
    if n == 0 {
      items := NoItems;
      NothingBefore(s);
    } else {
      var i := ItemAt(s);
      var later := ItemsAt(n - 1, Skip(s).value);
      items := Items(i, later);
      Assoc(Octets(i), AllOctets(later), SkipItems(n, s).value);
    }
  }

  lemma {:induction false} OpenItemsAt(s: Bytes) returns (items: Items)
    requires SkipUntilBreak(1, s).Some?
    ensures AllWellSized(items) && s == (AllOctets(items) + [0xFF]) + SkipUntilBreak(1, s).value
    decreases |s|, 2
  {
    hide Skip, Octets;
    if s[0] == 0xFF {
      items := NoItems;
      NothingBefore([0xFF]);
      assert s == [0xFF] + s[1..];
    } else {
      OneItem(s);
      var i := ItemAt(s);
      var later := OpenItemsAt(Skip(s).value);
      items := Items(i, later);
      Assoc(Octets(i), AllOctets(later), [0xFF]);
      Assoc(Octets(i), AllOctets(later) + [0xFF], SkipUntilBreak(1, s).value);
    }
  }

  lemma {:induction false} PairAt(s: Bytes) returns (key: Item, value: Item)
    requires SkipItems(2, s).Some?
    ensures WellSized(key) && WellSized(value)
    ensures s == Octets(key) + (Octets(value) + SkipItems(2, s).value)
    decreases |s|, 2
  {
    hide Skip, Octets;
    OneItem(Skip(s).value);
    key := ItemAt(s);
    value := ItemAt(Skip(s).value);
  }

  lemma {:induction false} PairsAt(n: nat, s: Bytes) returns (pairs: Pairs)
    requires SkipItems(2 * n, s).Some?
    ensures PairsWellSized(pairs) && PairCount(pairs) == n && s == PairsOctets(pairs) + SkipItems(2 * n, s).value
    decreases |s|, 3
  {
    hide Skip, Octets;
    if n == 0 {
      pairs := NoPairs;
      NothingBefore(s);
    } else {
      TwoOfMany(2 * n, s);
      var key, value := PairAt(s);
      var later := PairsAt(n - 1, SkipItems(2, s).value);
      pairs := Pairs(key, value, later);
      var r := SkipItems(2 * n, s).value;
      Assoc(Octets(value), PairsOctets(later), r);
      Assoc(Octets(key), Octets(value) + PairsOctets(later), r);
    }
  }

  lemma TwoOfMany(n: nat, s: Bytes)
    requires n >= 2 && SkipItems(n, s).Some?
    ensures SkipItems(2, s).Some? && SkipItems(n, s) == SkipItems(n - 2, SkipItems(2, s).value)
  {
    hide Skip;
    OneItem(Skip(s).value);
    ItemsThenItems(2, n - 2, s);
  }

  lemma {:induction false} OpenPairsAt(s: Bytes) returns (pairs: Pairs)
    requires SkipUntilBreak(2, s).Some?
    ensures PairsWellSized(pairs) && s == (PairsOctets(pairs) + [0xFF]) + SkipUntilBreak(2, s).value
    decreases |s|, 3
  {
    hide Skip, Octets;
    if s[0] == 0xFF {
      pairs := NoPairs;
      NothingBefore([0xFF]);
      assert s == [0xFF] + s[1..];
    } else {
      var key, value := PairAt(s);
      var later := OpenPairsAt(SkipItems(2, s).value);
      pairs := Pairs(key, value, later);
      var tail, r := PairsOctets(later) + [0xFF], SkipUntilBreak(2, s).value;
      Assoc(Octets(value), PairsOctets(later), [0xFF]);
      Assoc(Octets(key), Octets(value) + PairsOctets(later), [0xFF]);
      Assoc(Octets(value), tail, r);
      Assoc(Octets(key), Octets(value) + tail, r);
    }
  }

  // ---- The two together ------------------------------------------------------------------------

  /** Passing over an item leaves `r` exactly when the octets of some item stand before `r`. */
  lemma SkipTakesExactlyAnItem(s: Bytes, r: Bytes)
    ensures Skip(s) == Some(r) <==> exists i :: WellSized(i) && s == Octets(i) + r
  {
    if Skip(s) == Some(r) {
      var i := ItemAt(s);
      assert WellSized(i) && s == Octets(i) + r;
    }
    forall i | WellSized(i) && s == Octets(i) + r
      ensures Skip(s) == Some(r)
    {
      ItemIsSkipped(i, r);
    }
  }

  /** So a run of items is passed over exactly when it is there. */
  lemma SkipTakesExactlyItems(n: nat, s: Bytes, r: Bytes)
    ensures SkipItems(n, s) == Some(r) <==>
              exists items :: AllWellSized(items) && Count(items) == n && s == AllOctets(items) + r
  {
    if SkipItems(n, s) == Some(r) {
      var items := ItemsAt(n, s);
      assert AllWellSized(items) && Count(items) == n && s == AllOctets(items) + r;
    }
    forall items | AllWellSized(items) && Count(items) == n && s == AllOctets(items) + r
      ensures SkipItems(n, s) == Some(r)
    {
      ItemsAreSkipped(items, r);
    }
  }

  /** A well-formed item is the octets of one tree. */
  lemma WellFormedIsATree(b: Bytes)
    ensures WellFormedItem(b) <==> exists i :: WellSized(i) && b == Octets(i)
  {
    SkipTakesExactlyAnItem(b, []);
    assert forall i :: WellSized(i) ==> Octets(i) + [] == Octets(i);
  }
}
