/** The CBOR core: heads (section 3 of RFC 8949) and well-formed items (Appendix C of RFC 8949). */
module Cbor {
  import opened Wrappers
  import opened ByteStrings
  import opened RustTypes

  // Major types.
  const UNSIGNED := 0
  const NEGATIVE := 1
  const BYTE_STRING := 2
  const TEXT_STRING := 3
  const ARRAY := 4
  const MAP := 5
  const TAG := 6

  const NULL: byte := 0xF6
  const BREAK: byte := 0xFF

  /** What a reader makes of a byte string: a value and the bytes after it, or a failure. */
  datatype Parsed<+T> = Fail | Ok(value: T, rest: Bytes) {

    predicate IsFailure() {
      Fail?
    }

    function PropagateFailure<U>(): Parsed<U>
      requires Fail?
    {
      Fail
    }

    function Extract(): (T, Bytes)
      requires Ok?
    {
      (value, rest)
    }
  }

  /** `p` with its value wrapped. */
  function Wrap<T, U>(p: Parsed<T>, f: T -> U): Parsed<U> {
    match p
    case Fail => Fail
    case Ok(v, r) => Ok(f(v), r)
  }

  // ---- Heads ------------------------------------------------------------------

  /** How many bytes the argument takes after an initial byte with this additional information. */
  function ArgumentWidth(info: nat): nat {
    if info < 24 then 0 else if info == 24 then 1 else if info == 25 then 2 else if info == 26 then 4 else 8
  }

  /** The additional information of the shortest head for `n`. */
  function ShortestInfo(n: u64): (info: byte)
    ensures info <= 27
  {
    if n < 24 then n else if n < 0x100 then 24 else if n < 0x1_0000 then 25 else if n < TWO_32 then 26 else 27
  }

  /** The shortest head (section 4.1 of RFC 8949). */
  function EncHead(major: nat, n: u64): (s: Bytes)
    requires major < 8
    ensures s != [] && s[0] / 32 == major && s[0] % 32 == ShortestInfo(n)
  {
    [(32 * major + ShortestInfo(n)) as byte] + FixedBytes(n, ArgumentWidth(ShortestInfo(n)))
  }

  function ReadArgument(info: nat, s: Bytes): (r: Parsed<nat>)
    ensures r.Ok? ==> |r.rest| <= |s|
  {
    var w := ArgumentWidth(info);
    if info < 24 then Ok(info, s)
    else if info > 27 || |s| < w then Fail
    else Ok(BigEndian(s[..w]), s[w..])
  }

  /** Reads one head of the given major type, whatever the width of its argument. */
  function ReadHead(major: nat, s: Bytes): (r: Parsed<u64>)
    ensures r.Ok? ==> |r.rest| < |s|
  {
    if s == [] || s[0] / 32 != major then Fail else
    ArgumentBound(s[0] % 32, s[1..]);
    var (n, r) :- ReadArgument(s[0] % 32, s[1..]);
    Ok(n, r)
  }

  lemma PowersOf256()
    ensures Pow256(0) == 1
    ensures Pow256(1) == 0x100
    ensures Pow256(2) == 0x1_0000
    ensures Pow256(4) == TWO_32
    ensures Pow256(8) == TWO_64
  {
    assert Pow256(4) == 256 * (256 * (256 * (256 * Pow256(0))));
    assert Pow256(8) == 256 * (256 * (256 * (256 * Pow256(4))));
  }

  lemma ArgumentBound(info: nat, s: Bytes)
    ensures ReadArgument(info, s).Ok? ==> ReadArgument(info, s).value < TWO_64
  {
    var w := ArgumentWidth(info);
    if 24 <= info <= 27 && w <= |s| {
      BigEndianBound(s[..w]);
      PowersOf256();
    }
  }

  /** Reading undoes writing, whatever follows. */
  lemma HeadRoundTrip(major: nat, n: u64, rest: Bytes)
    requires major < 8
    ensures ReadHead(major, EncHead(major, n) + rest) == Ok(n, rest)
  {
    var info := ShortestInfo(n);
    var w := ArgumentWidth(info);
    var arg := FixedBytes(n, w);
    var s := EncHead(major, n) + rest;
    assert s[0] == EncHead(major, n)[0];
    assert s[1..] == arg + rest;
    PowersOf256();
    if w > 0 {
      FixedBytesValue(n, w);
      assert (arg + rest)[..w] == arg;
      assert (arg + rest)[w..] == rest;
    } else {
      assert arg + rest == rest;
    }
  }

  // ---- Types ------------------------------------------------------------------

  /** The types the grammar tells apart by the first byte of an item. */
  datatype CborType = Numeric | ByteString | TextString | Array | ArrayIndef | Tag | Null | Other | EndOfInput

  function TypeOf(s: Bytes): CborType {
    if s == [] then EndOfInput
    else if s[0] == NULL then Null
    else if s[0] == 0x9F then ArrayIndef
    else if s[0] % 32 > 27 then Other
    else
      var major := s[0] / 32;
      if major == UNSIGNED || major == NEGATIVE then Numeric
      else if major == BYTE_STRING then ByteString
      else if major == TEXT_STRING then TextString
      else if major == ARRAY then Array
      else if major == TAG then Tag
      else Other
  }

  predicate IsArray(ty: CborType) {
    ty.Array? || ty.ArrayIndef?
  }

  // ---- Items without structure -------------------------------------------------

  function EncInt(n: CborInt): Bytes {
    if n >= 0 then EncHead(UNSIGNED, n) else EncHead(NEGATIVE, -1 - n)
  }

  function DecInt(s: Bytes): Parsed<CborInt> {
    if s != [] && s[0] / 32 == NEGATIVE then
      var (n, r) :- ReadHead(NEGATIVE, s);
      Ok(-1 - n, r)
    else
      ReadHead(UNSIGNED, s)
  }

  function DecI32(s: Bytes): Parsed<i32> {
    var (n, r) :- DecInt(s);
    if -TWO_31 <= n < TWO_31 then Ok(n, r) else Fail
  }

  function DecU64(s: Bytes): Parsed<u64> {
    ReadHead(UNSIGNED, s)
  }

  function DecU32(s: Bytes): Parsed<u32> {
    var (n, r) :- DecU64(s);
    if n < TWO_32 then Ok(n, r) else Fail
  }

  function DecU16(s: Bytes): Parsed<u16> {
    var (n, r) :- DecU64(s);
    if n < 0x1_0000 then Ok(n, r) else Fail
  }

  function EncBytes(b: Blob): Bytes {
    EncHead(BYTE_STRING, |b|) + b
  }

  function DecString(major: nat, s: Bytes): Parsed<Blob> {
    var (n, r) :- ReadHead(major, s);
    if n <= |r| then Ok(r[..n], r[n..]) else Fail
  }

  function DecBytes(s: Bytes): Parsed<Blob> {
    DecString(BYTE_STRING, s)
  }

  function EncText(t: Text): Bytes {
    EncHead(TEXT_STRING, |t|) + t
  }

  function DecText(s: Bytes): Parsed<Text> {
    var (b, r) :- DecString(TEXT_STRING, s);
    if ValidUtf8(b) then Ok(b, r) else Fail
  }

  function DecNull(s: Bytes): Parsed<()> {
    if s != [] && s[0] == NULL then Ok((), s[1..]) else Fail
  }

  function EncArrayHead(n: u64): Bytes {
    EncHead(ARRAY, n)
  }

  /** The element count of an array, or `None` for one of indefinite length. */
  function DecArray(s: Bytes): Parsed<Option<u64>> {
    if TypeOf(s).ArrayIndef? then Ok(None, s[1..]) else
    var (n, r) :- ReadHead(ARRAY, s);
    Ok(Some(n), r)
  }

  /** The element count of a definite-length array; an indefinite-length one is refused. */
  function DecArrayHead(s: Bytes): Parsed<u64> {
    ReadHead(ARRAY, s)
  }

  function EncTag(n: u64): Bytes {
    EncHead(TAG, n)
  }

  function DecTag(s: Bytes): Parsed<u64> {
    ReadHead(TAG, s)
  }

  lemma IntRoundTrip(n: CborInt, rest: Bytes)
    ensures DecInt(EncInt(n) + rest) == Ok(n, rest)
    ensures TypeOf(EncInt(n) + rest) == Numeric
  {
    if n >= 0 {
      HeadRoundTrip(UNSIGNED, n, rest);
    } else {
      HeadRoundTrip(NEGATIVE, -1 - n, rest);
    }
  }

  lemma UnsignedRoundTrip(n: u64, rest: Bytes)
    ensures DecU64(EncInt(n) + rest) == Ok(n, rest)
    ensures n < TWO_32 ==> DecU32(EncInt(n) + rest) == Ok(n, rest)
    ensures n < 0x1_0000 ==> DecU16(EncInt(n) + rest) == Ok(n, rest)
    ensures TypeOf(EncInt(n) + rest) == Numeric
  {
    HeadRoundTrip(UNSIGNED, n, rest);
  }

  lemma NullRoundTrip(rest: Bytes)
    ensures DecNull([NULL] + rest) == Ok((), rest)
    ensures TypeOf([NULL] + rest) == Null
  {
    AtBoundary([NULL], rest);
  }

  lemma TagRoundTrip(n: u64, rest: Bytes)
    ensures DecTag(EncTag(n) + rest) == Ok(n, rest)
    ensures TypeOf(EncTag(n) + rest) == Tag
  {
    HeadRoundTrip(TAG, n, rest);
  }

  lemma BytesRoundTrip(b: Blob, rest: Bytes)
    ensures DecBytes(EncBytes(b) + rest) == Ok(b, rest)
    ensures TypeOf(EncBytes(b) + rest) == ByteString
  {
    HeadRoundTrip(BYTE_STRING, |b|, b + rest);
    assert EncBytes(b) + rest == EncHead(BYTE_STRING, |b|) + (b + rest);
  }

  lemma TextRoundTrip(t: Text, rest: Bytes)
    ensures DecText(EncText(t) + rest) == Ok(t, rest)
    ensures TypeOf(EncText(t) + rest) == TextString
  {
    HeadRoundTrip(TEXT_STRING, |t|, t + rest);
    assert EncText(t) + rest == EncHead(TEXT_STRING, |t|) + (t + rest);
  }

  lemma ArrayHeadRoundTrip(n: u64, rest: Bytes)
    ensures DecArrayHead(EncArrayHead(n) + rest) == Ok(n, rest)
    ensures TypeOf(EncArrayHead(n) + rest) == Array
  {
    HeadRoundTrip(ARRAY, n, rest);
  }

  // ---- Well-formed items -------------------------------------------------------

  /** The bytes after one well-formed item, as Appendix C of RFC 8949 defines it. */
  function Skip(s: Bytes): (r: Option<Bytes>)
    ensures r.Some? ==> |r.value| < |s|
    decreases |s|, 0
  {
    if s == [] then None else
    var major, info := s[0] / 32, s[0] % 32;
    if info != 31 then
      match ReadArgument(info, s[1..])
      case Fail => None
      case Ok(arg, body) => SkipContent(major, info, arg, body)
    else if major == BYTE_STRING || major == TEXT_STRING then SkipChunks(major, s[1..])
    else if major == ARRAY then SkipUntilBreak(1, s[1..])
    else if major == MAP then SkipUntilBreak(2, s[1..])
    else None
  }

  function SkipContent(major: nat, info: nat, arg: nat, body: Bytes): (r: Option<Bytes>)
    ensures r.Some? ==> |r.value| <= |body|
    decreases |body|, 3
  {
    if major == UNSIGNED || major == NEGATIVE then Some(body)
    else if major == BYTE_STRING || major == TEXT_STRING then
      if arg <= |body| then Some(body[arg..]) else None
    else if major == ARRAY then SkipItems(arg, body)
    else if major == MAP then SkipItems(2 * arg, body)
    else if major == TAG then Skip(body)
    else if info == 24 && arg < 32 then None
    else Some(body)
  }

  /** The bytes after `n` items in a row. */
  function SkipItems(n: nat, s: Bytes): (r: Option<Bytes>)
    ensures r.Some? ==> |r.value| + n <= |s|
    decreases |s|, 1
  {
    if n == 0 then Some(s) else
    var r :- Skip(s);
    SkipItems(n - 1, r)
  }

  /** The bytes after groups of `k` items and the break that ends them. */
  function SkipUntilBreak(k: nat, s: Bytes): (r: Option<Bytes>)
    requires k > 0
    ensures r.Some? ==> |r.value| < |s|
    decreases |s|, 2
  {
    if s == [] then None
    else if s[0] == BREAK then Some(s[1..])
    else
      var r :- SkipItems(k, s);
      SkipUntilBreak(k, r)
  }

  /** The bytes after the chunks of an indefinite-length string and the break that ends them. */
  function SkipChunks(major: nat, s: Bytes): (r: Option<Bytes>)
    ensures r.Some? ==> |r.value| < |s|
    decreases |s|
  {
    if s == [] then None
    else if s[0] == BREAK then Some(s[1..])
    else
      match DecString(major, s)
      case Fail => None
      case Ok(_, r) => SkipChunks(major, r)
  }

  /** `b` is exactly one well-formed item. */
  predicate WellFormedItem(b: Bytes) {
    Skip(b) == Some([])
  }

  // ---- What passing over an item depends on ---------------------------------------

  // Passing over items reads the bytes `a` of those items alone: any tail `t` may follow them.

  lemma ArgumentLocal(info: nat, s: Bytes, t: Bytes) returns (a: Bytes)
    requires ReadArgument(info, s).Ok?
    ensures s == a + ReadArgument(info, s).rest
    ensures ReadArgument(info, a + t) == Ok(ReadArgument(info, s).value, t)
  {
    a := s[..ArgumentWidth(info)];
    AtBoundary(a, t);
  }

  lemma HeadLocal(major: nat, s: Bytes, t: Bytes) returns (a: Bytes)
    requires ReadHead(major, s).Ok?
    ensures s == a + ReadHead(major, s).rest
    ensures ReadHead(major, a + t) == Ok(ReadHead(major, s).value, t)
  {
    var b := ArgumentLocal(s[0] % 32, s[1..], t);
    a := [s[0]] + b;
    AfterFirst(s[0], b, t);
  }

  lemma {:induction false} SkipLocal(s: Bytes, t: Bytes) returns (a: Bytes)
    requires Skip(s).Some?
    ensures s == a + Skip(s).value
    ensures Skip(a + t) == Some(t)
    decreases |s|, 0
  {
    var major, info := s[0] / 32, s[0] % 32;
    var b: Bytes;
    if info != 31 {
      var p := ReadArgument(info, s[1..]);
      var y := ContentLocal(major, info, p.value, p.rest, t);
      var x := ArgumentLocal(info, s[1..], y + t);
      b := x + y;
      Assoc(x, y, t);
      Assoc(x, y, Skip(s).value);
    } else if major == BYTE_STRING || major == TEXT_STRING {
      b := ChunksLocal(major, s[1..], t);
    } else {
      b := UntilBreakLocal(if major == ARRAY then 1 else 2, s[1..], t);
    }
    a := [s[0]] + b;
    AfterFirst(s[0], b, t);
    AfterFirst(s[0], b, Skip(s).value);
  }

  lemma {:induction false} ContentLocal(major: nat, info: nat, arg: nat, s: Bytes, t: Bytes) returns (a: Bytes)
    requires SkipContent(major, info, arg, s).Some?
    ensures s == a + SkipContent(major, info, arg, s).value
    ensures SkipContent(major, info, arg, a + t) == Some(t)
    decreases |s|, 3
  {
    if major == BYTE_STRING || major == TEXT_STRING {
      a := s[..arg];
      AtBoundary(a, t);
    } else if major == ARRAY {
      a := ItemsLocal(arg, s, t);
    } else if major == MAP {
      a := ItemsLocal(2 * arg, s, t);
    } else if major == TAG {
      a := SkipLocal(s, t);
    } else {
      a := [];
      NothingBefore(t);
    }
  }

  lemma {:induction false} ItemsLocal(n: nat, s: Bytes, t: Bytes) returns (a: Bytes)
    requires SkipItems(n, s).Some?
    ensures s == a + SkipItems(n, s).value
    ensures SkipItems(n, a + t) == Some(t)
    decreases |s|, 1
  {
    if n == 0 {
      a := [];
      NothingBefore(t);
    } else {
      var y := ItemsLocal(n - 1, Skip(s).value, t);
      var x := SkipLocal(s, y + t);
      a := x + y;
      Assoc(x, y, t);
      Assoc(x, y, SkipItems(n, s).value);
    }
  }

  lemma {:induction false} UntilBreakLocal(k: nat, s: Bytes, t: Bytes) returns (a: Bytes)
    requires k > 0 && SkipUntilBreak(k, s).Some?
    ensures s == a + SkipUntilBreak(k, s).value
    ensures SkipUntilBreak(k, a + t) == Some(t)
    decreases |s|, 2
  {
    if s[0] == BREAK {
      a := [BREAK];
      AtBoundary(a, t);
    } else {
      var y := UntilBreakLocal(k, SkipItems(k, s).value, t);
      var x := ItemsLocal(k, s, y + t);
      a := x + y;
      Assoc(x, y, t);
      Assoc(x, y, SkipUntilBreak(k, s).value);
    }
  }

  /** A chunk: its head and as many bytes as the head says. */
  lemma ChunkLocal(major: nat, s: Bytes, t: Bytes) returns (a: Bytes)
    requires DecString(major, s).Ok?
    ensures s == a + DecString(major, s).rest
    ensures DecString(major, a + t) == Ok(DecString(major, s).value, t)
  {
    var p := ReadHead(major, s);
    var c := p.rest[..p.value];
    var h := HeadLocal(major, s, c + t);
    a := h + c;
    Assoc(h, c, t);
    Assoc(h, c, DecString(major, s).rest);
    AtBoundary(c, t);
  }

  lemma {:induction false} ChunksLocal(major: nat, s: Bytes, t: Bytes) returns (a: Bytes)
    requires SkipChunks(major, s).Some?
    ensures s == a + SkipChunks(major, s).value
    ensures SkipChunks(major, a + t) == Some(t)
    decreases |s|
  {
    if s[0] == BREAK {
      a := [BREAK];
      AtBoundary(a, t);
    } else {
      var y := ChunksLocal(major, DecString(major, s).rest, t);
      var x := ChunkLocal(major, s, y + t);
      a := x + y;
      Assoc(x, y, t);
      Assoc(x, y, SkipChunks(major, s).value);
    }
  }

  /** The bytes an item takes are a well-formed item by themselves. */
  lemma TakenItem(s: Bytes) returns (a: Bytes)
    requires Skip(s).Some?
    ensures s == a + Skip(s).value && WellFormedItem(a)
  {
    a := SkipLocal(s, []);
    assert a + [] == a;
  }

  // ---- Items read by the decoder are well-formed ------------------------------------

  lemma OneItem(s: Bytes)
    ensures SkipItems(1, s) == Skip(s)
  {
    if Skip(s).Some? {
      assert SkipItems(0, Skip(s).value) == Some(Skip(s).value);
    }
  }

  lemma {:induction false} ItemsThenItems(a: nat, b: nat, s: Bytes)
    requires SkipItems(a, s).Some?
    ensures SkipItems(a + b, s) == SkipItems(b, SkipItems(a, s).value)
  {
    if a > 0 {
      var r := Skip(s).value;
      ItemsThenItems(a - 1, b, r);
      assert a + b - 1 == (a - 1) + b;
      assert SkipItems(a + b, s) == SkipItems(a - 1 + b, r);
    }
  }

  lemma IntIsItem(s: Bytes)
    requires DecInt(s).Ok?
    ensures SkipItems(1, s) == Some(DecInt(s).rest)
  {
    OneItem(s);
  }

  lemma StringIsItem(major: nat, s: Bytes)
    requires major == BYTE_STRING || major == TEXT_STRING
    requires DecString(major, s).Ok?
    ensures SkipItems(1, s) == Some(DecString(major, s).rest)
  {
    OneItem(s);
  }

  lemma NullIsItem(s: Bytes)
    requires DecNull(s).Ok?
    ensures SkipItems(1, s) == Some(DecNull(s).rest)
  {
    OneItem(s);
  }

  lemma ArrayIsItem(s: Bytes)
    requires DecArrayHead(s).Ok?
    ensures SkipItems(1, s) == SkipItems(DecArrayHead(s).value, DecArrayHead(s).rest)
  {
    OneItem(s);
  }

  lemma TagIsItem(s: Bytes)
    requires DecTag(s).Ok?
    ensures SkipItems(1, s) == SkipItems(1, DecTag(s).rest)
  {
    OneItem(s);
    OneItem(DecTag(s).rest);
  }
}
