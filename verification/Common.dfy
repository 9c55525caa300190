/** The building blocks shared across the grammar (src/common.rs). */
module Common {
  import opened Wrappers
  import opened ByteStrings
  import opened RustTypes
  import opened Cbor
  import opened Lists
  import opened Minicbor

  const MAC_ADDRESS_TAG := 48

  /** A registry-assigned integer or, if unregistered, an OID. */
  datatype IntOrOid = Registry(n: i32) | Unregistered(oid: Oid)

  /** An attribute value: plain text, raw bytes, or a tagged MAC address. */
  datatype SpecialText = Plain(text: Text) | Hex(bytes: Blob) | Mac(mac: MacAddr)

  /** An attribute: the single-valued one of names, or the multi-valued one of directory attributes. */
  datatype RdnAttr<S, B> =
    | Registered(id: u16, printableString: bool, value: S)
    | ByOid(oid: Oid, bytes: B)

  // ---- Grammar -------------------------------------------------------------------

  function DecOid(s: Bytes): Parsed<Oid> {
    var (b, r) :- DecBytes(s);
    if ValidOid(b) then Ok(b, r) else Fail
  }

  function EncIntOrOid(x: IntOrOid): Bytes {
    match x
    case Registry(n) => EncInt(n)
    case Unregistered(oid) => EncBytes(oid)
  }

  function DecIntOrOid(s: Bytes): Parsed<IntOrOid> {
    if TypeOf(s).ByteString? then
      var (oid, r) :- DecOid(s);
      Ok(Unregistered(oid), r)
    else
      var (n, r) :- DecI32(s);
      Ok(Registry(n), r)
  }

  function EncSpecialText(x: SpecialText): Bytes {
    match x
    case Plain(t) => EncText(t)
    case Hex(b) => EncBytes(b)
    case Mac(m) => EncTag(MAC_ADDRESS_TAG) + EncBytes(m)
  }

  function DecMac(s: Bytes): Parsed<MacAddr> {
    var (b, r) :- DecBytes(s);
    if |b| == 6 || |b| == 8 then Ok(b, r) else Fail
  }

  function DecSpecialText(s: Bytes): Parsed<SpecialText> {
    match TypeOf(s)
    case TextString =>
      var (t, r) :- DecText(s);
      Ok(Plain(t), r)
    case ByteString =>
      var (b, r) :- DecBytes(s);
      Ok(Hex(b), r)
    case Tag =>
      var (tag, r) :- DecTag(s);
      if tag != MAC_ADDRESS_TAG then Fail else
      var (m, q) :- DecMac(r);
      Ok(Mac(m), q)
    case _ => Fail
  }

  /** The wire form of a registered attribute type: negative for printableString. */
  function SignedId(id: u16, printable: bool): i32 {
    if printable then -(id as int) else id as int
  }

  function EncRdnAttr<S, B>(encS: S -> Bytes, encB: B -> Bytes, a: RdnAttr<S, B>): Bytes {
    match a
    case Registered(id, printable, v) => EncInt(SignedId(id, printable)) + encS(v)
    case ByOid(oid, b) => EncBytes(oid) + encB(b)
  }

  /** A registered attribute type and its printableString flag. */
  function DecAttributeType(s: Bytes): Parsed<(u16, bool)> {
    var (raw, r) :- DecI32(s);
    var id: int := if raw < 0 then -(raw as int) else raw;
    if id < 0x1_0000 then Ok((id, raw < 0), r) else Fail
  }

  function DecRdnAttr<S, B>(decS: Bytes -> Parsed<S>, decB: Bytes -> Parsed<B>, s: Bytes): Parsed<RdnAttr<S, B>> {
    if TypeOf(s).ByteString? then
      var (oid, r) :- DecOid(s);
      var (b, q) :- decB(r);
      Ok(ByOid(oid, b), q)
    else
      var (ty, r) :- DecAttributeType(s);
      var (v, q) :- decS(r);
      Ok(Registered(ty.0, ty.1, v), q)
  }

  /** The attribute type's sign is the printableString flag, so id 0 has no room for it. */
  predicate SignKept<S, B>(a: RdnAttr<S, B>) {
    a.Registered? && a.printableString ==> a.id != 0
  }

  function EncOptUint(v: Option<u32>): Bytes {
    if v.Some? then EncInt(v.value) else [NULL]
  }

  function DecOptUint(s: Bytes): Parsed<Option<u32>> {
    if TypeOf(s).Null? then Ok(None, s[1..]) else
    var (n, r) :- DecU32(s);
    Ok(Some(n), r)
  }

  function EncBigUint(n: BigUint): Bytes {
    EncBytes(MinimalBytes(n))
  }

  function DecBigUint(s: Bytes): Parsed<BigUint> {
    var (b, r) :- DecBytes(s);
    MinimalBytesLength(b);
    Ok(BigEndian(b), r)
  }

  function EncTime(t: OffsetDateTime): Option<Bytes> {
    if t < 0 then None else Some(EncInt(t))
  }

  function DecTime(s: Bytes): Parsed<OffsetDateTime> {
    var (secs, r) :- DecU64(s);
    if secs <= MAX_TIMESTAMP then Ok(secs, r) else Fail
  }

  /** The bytes of the next item, uninterpreted; no input holds an item of 2^64 bytes. */
  function DecRaw(s: Bytes): Parsed<Blob> {
    var r := Skip(s);
    if r.None? || |s| - |r.value| >= TWO_64 then Fail else Ok(s[..|s| - |r.value|], r.value)
  }

  /** The element count, but no more than the bytes left. */
  function BoundedCapacity(remaining: nat, n: u64): (c: nat)
    ensures c <= remaining && c <= n && (c == remaining || c == n)
  {
    if n < remaining then n else remaining
  }

  // ---- Both ways -------------------------------------------------------------------

  lemma OidRoundTrip(oid: Oid, rest: Bytes)
    ensures DecOid(EncBytes(oid) + rest) == Ok(oid, rest)
    ensures TypeOf(EncBytes(oid) + rest) == ByteString
  {
    BytesRoundTrip(oid, rest);
  }

  lemma IntOrOidRoundTrip(x: IntOrOid, rest: Bytes)
    ensures DecIntOrOid(EncIntOrOid(x) + rest) == Ok(x, rest)
    ensures TypeOf(EncIntOrOid(x) + rest) in {Numeric, ByteString}
  {
    match x
    case Registry(n) => IntRoundTrip(n, rest);
    case Unregistered(oid) => OidRoundTrip(oid, rest);
  }

  lemma IntOrOidIsItem(s: Bytes)
    requires DecIntOrOid(s).Ok?
    ensures SkipItems(1, s) == Some(DecIntOrOid(s).rest)
  {
    if TypeOf(s).ByteString? {
      StringIsItem(BYTE_STRING, s);
    } else {
      IntIsItem(s);
    }
  }

  lemma SpecialTextRoundTrip(x: SpecialText, rest: Bytes)
    ensures DecSpecialText(EncSpecialText(x) + rest) == Ok(x, rest)
    ensures TypeOf(EncSpecialText(x) + rest) in {TextString, ByteString, CborType.Tag}
  {
    match x
    case Plain(t) => TextRoundTrip(t, rest);
    case Hex(b) => BytesRoundTrip(b, rest);
    case Mac(m) =>
      Assoc(EncTag(MAC_ADDRESS_TAG), EncBytes(m), rest);
      TagRoundTrip(MAC_ADDRESS_TAG, EncBytes(m) + rest);
      BytesRoundTrip(m, rest);
  }

  lemma SpecialTextIsItem(s: Bytes)
    requires DecSpecialText(s).Ok?
    ensures SkipItems(1, s) == Some(DecSpecialText(s).rest)
  {
    match TypeOf(s)
    case TextString => StringIsItem(TEXT_STRING, s);
    case ByteString => StringIsItem(BYTE_STRING, s);
    case Tag =>
      TagIsItem(s);
      StringIsItem(BYTE_STRING, DecTag(s).rest);
  }

  lemma AttributeTypeRoundTrip(id: u16, printable: bool, rest: Bytes)
    requires printable ==> id != 0
    ensures DecAttributeType(EncInt(SignedId(id, printable)) + rest) == Ok((id, printable), rest)
    ensures TypeOf(EncInt(SignedId(id, printable)) + rest) == Numeric
  {
    IntRoundTrip(SignedId(id, printable), rest);
  }

  lemma RdnAttrRoundTrip<S, B>(
    encS: S -> Bytes, decS: Bytes -> Parsed<S>, encB: B -> Bytes, decB: Bytes -> Parsed<B>,
    a: RdnAttr<S, B>, rest: Bytes)
    requires SignKept(a)
    requires a.Registered? ==> ReadsBack(decS, encS(a.value), a.value)
    requires a.ByOid? ==> ReadsBack(decB, encB(a.bytes), a.bytes)
    ensures DecRdnAttr(decS, decB, EncRdnAttr(encS, encB, a) + rest) == Ok(a, rest)
  {
    match a
    case Registered(id, printable, v) =>
      var raw := SignedId(id, printable);
      Assoc(EncInt(raw), encS(v), rest);
      AttributeTypeRoundTrip(id, printable, encS(v) + rest);
    case ByOid(oid, b) =>
      Assoc(EncBytes(oid), encB(b), rest);
      OidRoundTrip(oid, encB(b) + rest);
  }

  /** The attribute comes back exactly when a registered id 0 is not marked printableString. */
  lemma RdnAttrRoundTripExactly<S, B>(
    encS: S -> Bytes, decS: Bytes -> Parsed<S>, encB: B -> Bytes, decB: Bytes -> Parsed<B>,
    a: RdnAttr<S, B>, rest: Bytes)
    requires a.Registered? ==> ReadsBack(decS, encS(a.value), a.value)
    requires a.ByOid? ==> ReadsBack(decB, encB(a.bytes), a.bytes)
    ensures DecRdnAttr(decS, decB, EncRdnAttr(encS, encB, a) + rest) == Ok(a, rest) <==> SignKept(a)
  {
    if SignKept(a) {
      RdnAttrRoundTrip(encS, decS, encB, decB, a, rest);
    } else {
      Assoc(EncInt(0), encS(a.value), rest);
      IntRoundTrip(0, encS(a.value) + rest);
    }
  }

  lemma RdnAttrIsItems<S, B>(decS: Bytes -> Parsed<S>, decB: Bytes -> Parsed<B>, s: Bytes)
    requires DecRdnAttr(decS, decB, s).Ok? && ReadsItems(1, decS) && ReadsItems(1, decB)
    ensures SkipItems(2, s) == Some(DecRdnAttr(decS, decB, s).rest)
    ensures SignKept(DecRdnAttr(decS, decB, s).value)
  {
    if TypeOf(s).ByteString? {
      StringIsItem(BYTE_STRING, s);
    } else {
      IntIsItem(s);
    }
    ItemsThenItems(1, 1, s);
  }

  lemma OptUintRoundTrip(v: Option<u32>, rest: Bytes)
    ensures DecOptUint(EncOptUint(v) + rest) == Ok(v, rest)
  {
    if v.Some? {
      UnsignedRoundTrip(v.value, rest);
    } else {
      NullRoundTrip(rest);
    }
  }

  lemma OptUintIsItem(s: Bytes)
    requires DecOptUint(s).Ok?
    ensures SkipItems(1, s) == Some(DecOptUint(s).rest)
  {
    if TypeOf(s).Null? {
      NullIsItem(s);
    } else {
      IntIsItem(s);
    }
  }

  lemma BigUintRoundTrip(n: BigUint, rest: Bytes)
    ensures DecBigUint(EncBigUint(n) + rest) == Ok(n, rest)
  {
    BytesRoundTrip(MinimalBytes(n), rest);
    MinimalBytesValue(n);
  }

  lemma TimeRoundTrip(t: OffsetDateTime, rest: Bytes)
    requires EncTime(t).Some?
    ensures DecTime(EncTime(t).value + rest) == Ok(t, rest)
    ensures TypeOf(EncTime(t).value + rest) == Numeric
  {
    UnsignedRoundTrip(t, rest);
  }

  /** One well-formed item is captured as it stands. */
  lemma RawRoundTrip(b: Blob, rest: Bytes)
    requires WellFormedItem(b)
    ensures DecRaw(b + rest) == Ok(b, rest)
  {
    var a := SkipLocal(b, rest);
    assert a + [] == a;
    AtBoundary(b, rest);
  }

  lemma RawIsItem(s: Bytes)
    requires DecRaw(s).Ok?
    ensures SkipItems(1, s) == Some(DecRaw(s).rest)
    ensures WellFormedItem(DecRaw(s).value)
  {
    OneItem(s);
    var a := TakenItem(s);
    AtBoundary(a, Skip(s).value);
  }

  /** An accepted element count never exceeds the bytes left, so the capacity reserved is exactly the count. */
  lemma {:induction false} CapacityIsExact<T>(n: u64, k: nat, dec: Bytes -> Parsed<T>, s: Bytes)
    requires k > 0 && ReadsItems(k, dec) && DecMany(n, dec, s).Ok?
    ensures BoundedCapacity(|s|, n) == n
  {
    ManyIsItems(n, k, dec, s);
    AtLeastOneEach(n, k);
  }

  lemma AtLeastOneEach(n: nat, k: nat)
    requires k > 0
    ensures n <= n * k
  {
  }

  // ---- Methods -----------------------------------------------------------------------

  method DefiniteArrayLen(d: Decoder) returns (r: Option<u64>)
    requires d.Valid()
    modifies d
    ensures d.Valid() && Reads(DecArrayHead(old(d.Rest())), r, d.Rest())
  {
    var n :- d.Array();
    return n;
  }

  method ExpectArrayLen(d: Decoder, want: u64) returns (ok: Outcome)
    requires d.Valid()
    modifies d
    ensures d.Valid()
    ensures var head := DecArrayHead(old(d.Rest()));
            if head.Ok? && head.value == want then ok.Pass? && d.Rest() == head.rest else ok.Failed?
  {
    var len := DefiniteArrayLen(d);
    if len != Some(want) {
      return Failed;
    }
    return Pass;
  }

  method DecodeOid(d: Decoder) returns (r: Option<Oid>)
    requires d.Valid()
    modifies d
    ensures d.Valid() && Reads(DecOid(old(d.Rest())), r, d.Rest())
  {
    var b :- d.Bytes();
    return if ValidOid(b) then Some(b) else None;
  }

  method DecodeMac(d: Decoder) returns (r: Option<MacAddr>)
    requires d.Valid()
    modifies d
    ensures d.Valid() && Reads(DecMac(old(d.Rest())), r, d.Rest())
  {
    var b :- d.Bytes();
    return if |b| == 6 || |b| == 8 then Some(b) else None;
  }

  method DecodeIntOrOid(d: Decoder) returns (r: Option<IntOrOid>)
    requires d.Valid()
    modifies d
    ensures d.Valid() && Reads(DecIntOrOid(old(d.Rest())), r, d.Rest())
  {
    var ty :- d.DataType();
    if ty.ByteString? {
      var oid :- DecodeOid(d);
      return Some(Unregistered(oid));
    } else {
      var n :- d.I32();
      return Some(Registry(n));
    }
  }

  method EncodeIntOrOid(x: IntOrOid, e: Encoder)
    modifies e
    ensures e.buf == old(e.buf) + EncIntOrOid(x)
  {
    match x
    case Registry(n) => e.Int(n);
    case Unregistered(oid) => e.Bytes(oid);
  }

  method DecodeAttributeType(d: Decoder) returns (r: Option<(u16, bool)>)
    requires d.Valid()
    modifies d
    ensures d.Valid() && Reads(DecAttributeType(old(d.Rest())), r, d.Rest())
  {
    var raw :- d.I32();
    var id: int := if raw < 0 then -(raw as int) else raw;
    return if id < 0x1_0000 then Some((id, raw < 0)) else None;
  }

  method DecodeSpecialText(d: Decoder) returns (r: Option<SpecialText>)
    requires d.Valid()
    modifies d
    ensures d.Valid() && Reads(DecSpecialText(old(d.Rest())), r, d.Rest())
  {
    var ty :- d.DataType();
    match ty {
      case TextString =>
        var t :- d.Str();
        return Some(Plain(t));
      case ByteString =>
        var b :- d.Bytes();
        return Some(Hex(b));
      case Tag =>
        var tag :- d.Tag();
        if tag != MAC_ADDRESS_TAG {
          return None;
        }
        var m :- DecodeMac(d);
        return Some(Mac(m));
      case _ =>
        return None;
    }
  }

  method EncodeSpecialText(x: SpecialText, e: Encoder)
    modifies e
    ensures e.buf == old(e.buf) + EncSpecialText(x)
  {
    match x
    case Plain(t) => e.Str(t);
    case Hex(b) => e.Bytes(b);
    case Mac(m) =>
      e.Tag(MAC_ADDRESS_TAG);
      e.Bytes(m);
  }

  method DecodeOptUint(d: Decoder) returns (r: Option<Option<u32>>)
    requires d.Valid()
    modifies d
    ensures d.Valid() && Reads(DecOptUint(old(d.Rest())), r, d.Rest())
  {
    var ty :- d.DataType();
    if ty.Null? {
      var _ :- d.Null();
      return Some(None);
    }
    var n :- d.U32();
    return Some(Some(n));
  }

  method EncodeOptUint(v: Option<u32>, e: Encoder)
    modifies e
    ensures e.buf == old(e.buf) + EncOptUint(v)
  {
    match v
    case Some(n) => e.Int(n);
    case None => e.Null();
  }

  method ReadBigUint(d: Decoder) returns (r: Option<BigUint>)
    requires d.Valid()
    modifies d
    ensures d.Valid() && Reads(DecBigUint(old(d.Rest())), r, d.Rest())
  {
    var b :- d.Bytes();
    MinimalBytesLength(b);
    return Some(BigEndian(b));
  }

  method ReadTime(d: Decoder) returns (r: Option<OffsetDateTime>)
    requires d.Valid()
    modifies d
    ensures d.Valid() && Reads(DecTime(old(d.Rest())), r, d.Rest())
  {
    var secs :- d.U64();
    if secs >= TWO_63 {
      return None;
    }
    return if secs <= MAX_TIMESTAMP then Some(secs) else None;
  }

  method EncodeTime(t: OffsetDateTime, e: Encoder) returns (ok: Outcome)
    modifies e
    ensures Writes(EncTime(t), ok, old(e.buf), e.buf)
  {
    if t < 0 {
      return Failed;
    }
    e.Int(t);
    return Pass;
  }

  method RawItem(d: Decoder) returns (r: Option<Blob>)
    requires d.Valid()
    modifies d
    ensures d.Valid() && Reads(DecRaw(old(d.Rest())), r, d.Rest())
  {
    var start := d.pos;
    ghost var s := d.Rest();
    var skipped := d.Skip();
    if skipped.Failed? {
      return None;
    }
    assert |s| - |d.Rest()| == d.pos - start;
    assert s[..d.pos - start] == d.input[start..d.pos];
    return Some(d.input[start..d.pos]);
  }
}
