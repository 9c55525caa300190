/** Distinguished names (src/name.rs). */
module Names {
  import opened Wrappers
  import opened ByteStrings
  import opened RustTypes
  import opened Cbor
  import opened Lists
  import opened Minicbor
  import opened Common

  const COMMON_NAME_ID := 1

  type RdnAttribute = RdnAttr<SpecialText, Blob>

  datatype Name = Name(attrs: PairVec<RdnAttribute>)

  // ---- Grammar -------------------------------------------------------------------

  function EncAttribute(a: RdnAttribute): Bytes {
    EncRdnAttr(EncSpecialText, EncBytes, a)
  }

  function DecAttribute(s: Bytes): Parsed<RdnAttribute> {
    DecRdnAttr(DecSpecialText, DecBytes, s)
  }

  function CommonName(value: SpecialText): Name {
    Name([Registered(COMMON_NAME_ID, false, value)])
  }

  predicate IsCommonName(n: Name) {
    && |n.attrs| == 1
    && n.attrs[0].Registered?
    && n.attrs[0].id == COMMON_NAME_ID
    && !n.attrs[0].printableString
  }

  /** A lone commonName is written as its bare value. */
  function EncName(n: Name): Bytes {
    if IsCommonName(n) then EncSpecialText(n.attrs[0].value) else EncArrayOf(2, EncAttribute, n.attrs)
  }

  function DecName(s: Bytes): Parsed<Name> {
    if IsArray(TypeOf(s)) then
      var (attrs, r) :- DecArrayOf(2, DecAttribute, s);
      Ok(Name(attrs), r)
    else
      var (value, r) :- DecSpecialText(s);
      Ok(CommonName(value), r)
  }

  function EncOptionalName(n: Option<Name>): Bytes {
    if n.Some? then EncName(n.value) else [NULL]
  }

  function DecOptionalName(s: Bytes): Parsed<Option<Name>> {
    if TypeOf(s).Null? then Ok(None, s[1..]) else
    var (n, r) :- DecName(s);
    Ok(Some(n), r)
  }

  predicate NameTyped(n: Name) {
    forall a :: a in n.attrs ==> SignKept(a)
  }

  predicate OptionalNameTyped(n: Option<Name>) {
    n.Some? ==> NameTyped(n.value)
  }

  // ---- Both ways -------------------------------------------------------------------

  lemma AttributeReadsBack(a: RdnAttribute)
    requires SignKept(a)
    ensures ReadsBack(DecAttribute, EncAttribute(a), a)
  {
    forall t: Bytes
      ensures DecAttribute(EncAttribute(a) + t) == Ok(a, t)
    {
      if a.Registered? {
        forall u: Bytes
          ensures DecSpecialText(EncSpecialText(a.value) + u) == Ok(a.value, u)
        {
          SpecialTextRoundTrip(a.value, u);
        }
      } else {
        forall u: Bytes
          ensures DecBytes(EncBytes(a.bytes) + u) == Ok(a.bytes, u)
        {
          BytesRoundTrip(a.bytes, u);
        }
      }
      RdnAttrRoundTrip(EncSpecialText, DecSpecialText, EncBytes, DecBytes, a, t);
    }
  }

  lemma AttributeIsItems(s: Bytes)
    requires DecAttribute(s).Ok?
    ensures SkipItems(2, s) == Some(DecAttribute(s).rest) && SignKept(DecAttribute(s).value)
  {
    forall t: Bytes | DecSpecialText(t).Ok?
      ensures SkipItems(1, t) == Some(DecSpecialText(t).rest)
    {
      SpecialTextIsItem(t);
    }
    forall t: Bytes | DecBytes(t).Ok?
      ensures SkipItems(1, t) == Some(DecBytes(t).rest)
    {
      StringIsItem(BYTE_STRING, t);
    }
    RdnAttrIsItems(DecSpecialText, DecBytes, s);
  }

  /** A name is read back whether it took the compact form or not, and never starts like null. */
  lemma NameRoundTrip(n: Name, rest: Bytes)
    requires NameTyped(n)
    ensures DecName(EncName(n) + rest) == Ok(n, rest)
    ensures TypeOf(EncName(n) + rest) in {TextString, ByteString, CborType.Tag, CborType.Array}
  {
    if IsCommonName(n) {
      SpecialTextRoundTrip(n.attrs[0].value, rest);
      assert n == CommonName(n.attrs[0].value);
    } else {
      forall i | 0 <= i < |n.attrs|
        ensures ReadsBack(DecAttribute, EncAttribute(n.attrs[i]), n.attrs[i])
      {
        AttributeReadsBack(n.attrs[i]);
      }
      ArrayOfRoundTrip(2, EncAttribute, DecAttribute, n.attrs, rest);
    }
  }

  lemma NameIsItem(s: Bytes)
    requires DecName(s).Ok?
    ensures SkipItems(1, s) == Some(DecName(s).rest) && NameTyped(DecName(s).value)
  {
    if IsArray(TypeOf(s)) {
      forall t: Bytes | DecAttribute(t).Ok?
        ensures SkipItems(2, t) == Some(DecAttribute(t).rest) && SignKept(DecAttribute(t).value)
      {
        AttributeIsItems(t);
      }
      var kept := (a: RdnAttribute) => SignKept(a);
      ArrayOfIsItem(2, DecAttribute, s);
      ArrayOfYields(2, DecAttribute, kept, s);
      assert forall a: RdnAttribute :: kept(a) ==> SignKept(a);
    } else {
      SpecialTextIsItem(s);
    }
  }

  /** A name is read back exactly when no attribute with id 0 is marked printableString. */
  lemma NameRoundTripExactly(n: Name, rest: Bytes)
    ensures DecName(EncName(n) + rest) == Ok(n, rest) <==> NameTyped(n)
  {
    if NameTyped(n) {
      NameRoundTrip(n, rest);
    } else if DecName(EncName(n) + rest).Ok? {
      NameIsItem(EncName(n) + rest);
    }
  }

  lemma OptionalNameRoundTrip(n: Option<Name>, rest: Bytes)
    requires OptionalNameTyped(n)
    ensures DecOptionalName(EncOptionalName(n) + rest) == Ok(n, rest)
  {
    if n.Some? {
      NameRoundTrip(n.value, rest);
    } else {
      NullRoundTrip(rest);
    }
  }

  lemma OptionalNameIsItem(s: Bytes)
    requires DecOptionalName(s).Ok?
    ensures SkipItems(1, s) == Some(DecOptionalName(s).rest) && OptionalNameTyped(DecOptionalName(s).value)
  {
    if TypeOf(s).Null? {
      NullIsItem(s);
    } else {
      NameIsItem(s);
    }
  }

  // ---- Methods -----------------------------------------------------------------------

  method DecodeAttribute(d: Decoder) returns (r: Option<RdnAttribute>)
    requires d.Valid()
    modifies d
    ensures d.Valid() && Reads(DecAttribute(old(d.Rest())), r, d.Rest())
  {
    var ty :- d.DataType();
    if ty.ByteString? {
      var oid :- DecodeOid(d);
      var b :- d.Bytes();
      return Some(ByOid(oid, b));
    }
    var attributeType :- DecodeAttributeType(d);
    var value :- DecodeSpecialText(d);
    return Some(Registered(attributeType.0, attributeType.1, value));
  }

  method EncodeAttribute(a: RdnAttribute, e: Encoder)
    modifies e
    ensures e.buf == old(e.buf) + EncAttribute(a)
  {
    match a
    case Registered(id, printable, value) =>
      e.Int(SignedId(id, printable));
      EncodeSpecialText(value, e);
    case ByOid(oid, b) =>
      e.Bytes(oid);
      e.Bytes(b);
  }

  method DecodeAttributes(n: nat, d: Decoder) returns (r: Option<seq<RdnAttribute>>)
    requires d.Valid()
    modifies d
    ensures d.Valid() && Reads(DecMany(n, DecAttribute, old(d.Rest())), r, d.Rest())
  {
    hide DecAttribute;
    ghost var start := d.Rest();
    var attrs: seq<RdnAttribute> := [];
    NothingDone(DecMany(n, DecAttribute, start));
    for left := n downto 0
      invariant d.Valid()
      invariant DecMany(n, DecAttribute, start) == After(attrs, DecMany(left, DecAttribute, d.Rest()))
    {
      ghost var here := d.Rest();
      var a := DecodeAttribute(d);
      ReadStep(n, left, DecAttribute, start, attrs, here, a, d.Rest());
      if a.None? {
        return None;
      }
      attrs := attrs + [a.value];
    }
    NothingLeft(attrs, DecAttribute, d.Rest());
    return Some(attrs);
  }

  method DecodeName(d: Decoder) returns (r: Option<Name>)
    requires d.Valid()
    modifies d
    ensures d.Valid() && Reads(DecName(old(d.Rest())), r, d.Rest())
  {
    var ty :- d.DataType();
    if IsArray(ty) {
      var len :- DefiniteArrayLen(d);
      if len % 2 != 0 {
        return None;
      }
      var attrs :- DecodeAttributes(len / 2, d);
      return Some(Name(attrs));
    }
    var value :- DecodeSpecialText(d);
    return Some(CommonName(value));
  }

  method EncodeName(n: Name, e: Encoder)
    modifies e
    ensures e.buf == old(e.buf) + EncName(n)
  {
    if IsCommonName(n) {
      EncodeSpecialText(n.attrs[0].value, e);
      return;
    }
    ghost var before := e.buf;
    e.Array(2 * |n.attrs|);
    ghost var head := e.buf;
    assert n.attrs[0..] == n.attrs;
    for i := 0 to |n.attrs|
      invariant head + ConcatMap(n.attrs, EncAttribute) == e.buf + ConcatMap(n.attrs[i..], EncAttribute)
    {
      WriteOne(n.attrs, i, EncAttribute, e.buf);
      EncodeAttribute(n.attrs[i], e);
    }
    NothingBefore(e.buf);
    Assoc(before, EncArrayHead(2 * |n.attrs|), ConcatMap(n.attrs, EncAttribute));
  }

  method DecodeOptionalName(d: Decoder) returns (r: Option<Option<Name>>)
    requires d.Valid()
    modifies d
    ensures d.Valid() && Reads(DecOptionalName(old(d.Rest())), r, d.Rest())
  {
    var ty :- d.DataType();
    if ty.Null? {
      var _ :- d.Null();
      return Some(None);
    }
    var n :- DecodeName(d);
    return Some(Some(n));
  }

  method EncodeOptionalName(n: Option<Name>, e: Encoder)
    modifies e
    ensures e.buf == old(e.buf) + EncOptionalName(n)
  {
    match n
    case None => e.Null();
    case Some(name) => EncodeName(name, e);
  }
}
