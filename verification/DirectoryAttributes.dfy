/** SubjectDirectoryAttributes: the multi-valued attributes (src/extensions/subject_directory_attributes.rs). */
module DirectoryAttributes {
  import opened Wrappers
  import opened ByteStrings
  import opened RustTypes
  import opened Cbor
  import opened Lists
  import opened Minicbor
  import opened Common

  type RdnAttributes = RdnAttr<Vec<SpecialText>, Vec<Blob>>

  // ---- Grammar -------------------------------------------------------------------

  function EncTexts(v: Vec<SpecialText>): Bytes {
    EncArrayOf(1, EncSpecialText, v)
  }

  function DecTexts(s: Bytes): Parsed<Vec<SpecialText>> {
    DecArrayOf(1, DecSpecialText, s)
  }

  function EncBlobs(v: Vec<Blob>): Bytes {
    EncArrayOf(1, EncBytes, v)
  }

  function DecBlobs(s: Bytes): Parsed<Vec<Blob>> {
    DecArrayOf(1, DecBytes, s)
  }

  function EncAttributes(a: RdnAttributes): Bytes {
    EncRdnAttr(EncTexts, EncBlobs, a)
  }

  function DecAttributes(s: Bytes): Parsed<RdnAttributes> {
    DecRdnAttr(DecTexts, DecBlobs, s)
  }

  function EncDirectory(attrs: PairVec<RdnAttributes>): Bytes {
    EncArrayOf(2, EncAttributes, attrs)
  }

  function DecDirectory(s: Bytes): Parsed<PairVec<RdnAttributes>> {
    DecArrayOf(2, DecAttributes, s)
  }

  predicate DirectoryTyped(attrs: seq<RdnAttributes>) {
    forall a :: a in attrs ==> SignKept(a)
  }

  // ---- Both ways -------------------------------------------------------------------

  lemma TextsRoundTrip(v: Vec<SpecialText>, rest: Bytes)
    ensures DecTexts(EncTexts(v) + rest) == Ok(v, rest)
  {
    forall i | 0 <= i < |v|
      ensures ReadsBack(DecSpecialText, EncSpecialText(v[i]), v[i])
    {
      forall t: Bytes
        ensures DecSpecialText(EncSpecialText(v[i]) + t) == Ok(v[i], t)
      {
        SpecialTextRoundTrip(v[i], t);
      }
    }
    ArrayOfRoundTrip(1, EncSpecialText, DecSpecialText, v, rest);
  }

  lemma BlobsRoundTrip(v: Vec<Blob>, rest: Bytes)
    ensures DecBlobs(EncBlobs(v) + rest) == Ok(v, rest)
  {
    forall i | 0 <= i < |v|
      ensures ReadsBack(DecBytes, EncBytes(v[i]), v[i])
    {
      forall t: Bytes
        ensures DecBytes(EncBytes(v[i]) + t) == Ok(v[i], t)
      {
        BytesRoundTrip(v[i], t);
      }
    }
    ArrayOfRoundTrip(1, EncBytes, DecBytes, v, rest);
  }

  lemma AttributesReadBack(a: RdnAttributes)
    requires SignKept(a)
    ensures ReadsBack(DecAttributes, EncAttributes(a), a)
  {
    forall t: Bytes
      ensures DecAttributes(EncAttributes(a) + t) == Ok(a, t)
    {
      if a.Registered? {
        forall u: Bytes
          ensures DecTexts(EncTexts(a.value) + u) == Ok(a.value, u)
        {
          TextsRoundTrip(a.value, u);
        }
      } else {
        forall u: Bytes
          ensures DecBlobs(EncBlobs(a.bytes) + u) == Ok(a.bytes, u)
        {
          BlobsRoundTrip(a.bytes, u);
        }
      }
      RdnAttrRoundTrip(EncTexts, DecTexts, EncBlobs, DecBlobs, a, t);
    }
  }

  lemma AttributesAreItems(s: Bytes)
    requires DecAttributes(s).Ok?
    ensures SkipItems(2, s) == Some(DecAttributes(s).rest) && SignKept(DecAttributes(s).value)
  {
    forall t: Bytes | DecSpecialText(t).Ok?
      ensures SkipItems(1, t) == Some(DecSpecialText(t).rest)
    {
      SpecialTextIsItem(t);
    }
    forall t: Bytes | DecBytes(t).Ok?
      ensures SkipItems(1, t) == Some(DecBytes(t).rest)
    {
      StringIsItem(BYTE_STRING, t);
    }
    forall t: Bytes | DecTexts(t).Ok?
      ensures SkipItems(1, t) == Some(DecTexts(t).rest)
    {
      ArrayOfIsItem(1, DecSpecialText, t);
    }
    forall t: Bytes | DecBlobs(t).Ok?
      ensures SkipItems(1, t) == Some(DecBlobs(t).rest)
    {
      ArrayOfIsItem(1, DecBytes, t);
    }
    RdnAttrIsItems(DecTexts, DecBlobs, s);
  }

  lemma DirectoryRoundTrip(attrs: PairVec<RdnAttributes>, rest: Bytes)
    requires DirectoryTyped(attrs)
    ensures DecDirectory(EncDirectory(attrs) + rest) == Ok(attrs, rest)
  {
    forall i | 0 <= i < |attrs|
      ensures ReadsBack(DecAttributes, EncAttributes(attrs[i]), attrs[i])
    {
      AttributesReadBack(attrs[i]);
    }
    ArrayOfRoundTrip(2, EncAttributes, DecAttributes, attrs, rest);
  }

  lemma DirectoryIsItem(s: Bytes)
    requires DecDirectory(s).Ok?
    ensures SkipItems(1, s) == Some(DecDirectory(s).rest) && DirectoryTyped(DecDirectory(s).value)
  {
    forall t: Bytes | DecAttributes(t).Ok?
      ensures SkipItems(2, t) == Some(DecAttributes(t).rest) && SignKept(DecAttributes(t).value)
    {
      AttributesAreItems(t);
    }
    var kept := (a: RdnAttributes) => SignKept(a);
    ArrayOfIsItem(2, DecAttributes, s);
    ArrayOfYields(2, DecAttributes, kept, s);
    assert forall a: RdnAttributes :: kept(a) ==> SignKept(a);
  }

  /** The attributes come back exactly when none with id 0 is marked printableString. */
  lemma DirectoryRoundTripExactly(attrs: PairVec<RdnAttributes>, rest: Bytes)
    ensures DecDirectory(EncDirectory(attrs) + rest) == Ok(attrs, rest) <==> DirectoryTyped(attrs)
  {
    if DirectoryTyped(attrs) {
      DirectoryRoundTrip(attrs, rest);
    } else if DecDirectory(EncDirectory(attrs) + rest).Ok? {
      DirectoryIsItem(EncDirectory(attrs) + rest);
    }
  }

  // ---- Methods -----------------------------------------------------------------------

  method DecodeTextRun(n: nat, d: Decoder) returns (r: Option<seq<SpecialText>>)
    requires d.Valid()
    modifies d
    ensures d.Valid() && Reads(DecMany(n, DecSpecialText, old(d.Rest())), r, d.Rest())
  {
    hide DecSpecialText;
    ghost var start := d.Rest();
    var out: seq<SpecialText> := [];
    NothingDone(DecMany(n, DecSpecialText, start));
    for left := n downto 0
      invariant d.Valid()
      invariant DecMany(n, DecSpecialText, start) == After(out, DecMany(left, DecSpecialText, d.Rest()))
    {
      ghost var here := d.Rest();
      var x := DecodeSpecialText(d);
      ReadStep(n, left, DecSpecialText, start, out, here, x, d.Rest());
      if x.None? {
        return None;
      }
      out := out + [x.value];
    }
    NothingLeft(out, DecSpecialText, d.Rest());
    return Some(out);
  }

  method DecodeBlobRun(n: nat, d: Decoder) returns (r: Option<seq<Blob>>)
    requires d.Valid()
    modifies d
    ensures d.Valid() && Reads(DecMany(n, DecBytes, old(d.Rest())), r, d.Rest())
  {
    hide DecBytes;
    ghost var start := d.Rest();
    var out: seq<Blob> := [];
    NothingDone(DecMany(n, DecBytes, start));
    for left := n downto 0
      invariant d.Valid()
      invariant DecMany(n, DecBytes, start) == After(out, DecMany(left, DecBytes, d.Rest()))
    {
      ghost var here := d.Rest();
      var b := d.Bytes();
      ReadStep(n, left, DecBytes, start, out, here, b, d.Rest());
      if b.None? {
        return None;
      }
      out := out + [b.value];
    }
    NothingLeft(out, DecBytes, d.Rest());
    return Some(out);
  }

  method DecodeTexts(d: Decoder) returns (r: Option<Vec<SpecialText>>)
    requires d.Valid()
    modifies d
    ensures d.Valid() && Reads(DecTexts(old(d.Rest())), r, d.Rest())
  {
    var n :- DefiniteArrayLen(d);
    EntryCount(1, n);
    var out :- DecodeTextRun(n, d);
    return Some(out);
  }

  method DecodeBlobs(d: Decoder) returns (r: Option<Vec<Blob>>)
    requires d.Valid()
    modifies d
    ensures d.Valid() && Reads(DecBlobs(old(d.Rest())), r, d.Rest())
  {
    var n :- DefiniteArrayLen(d);
    EntryCount(1, n);
    var out :- DecodeBlobRun(n, d);
    return Some(out);
  }

  method EncodeTexts(v: Vec<SpecialText>, e: Encoder)
    modifies e
    ensures e.buf == old(e.buf) + EncTexts(v)
  {
    ghost var before := e.buf;
    e.Array(|v|);
    ghost var head := e.buf;
    assert v[0..] == v;
    for i := 0 to |v|
      invariant head + ConcatMap(v, EncSpecialText) == e.buf + ConcatMap(v[i..], EncSpecialText)
    {
      WriteOne(v, i, EncSpecialText, e.buf);
      EncodeSpecialText(v[i], e);
    }
    NothingBefore(e.buf);
    Assoc(before, EncArrayHead(|v|), ConcatMap(v, EncSpecialText));
  }

  method EncodeBlobs(v: Vec<Blob>, e: Encoder)
    modifies e
    ensures e.buf == old(e.buf) + EncBlobs(v)
  {
    ghost var before := e.buf;
    e.Array(|v|);
    ghost var head := e.buf;
    assert v[0..] == v;
    for i := 0 to |v|
      invariant head + ConcatMap(v, EncBytes) == e.buf + ConcatMap(v[i..], EncBytes)
    {
      WriteOne(v, i, EncBytes, e.buf);
      e.Bytes(v[i]);
    }
    NothingBefore(e.buf);
    Assoc(before, EncArrayHead(|v|), ConcatMap(v, EncBytes));
  }

  method DecodeAttributes(d: Decoder) returns (r: Option<RdnAttributes>)
    requires d.Valid()
    modifies d
    ensures d.Valid() && Reads(DecAttributes(old(d.Rest())), r, d.Rest())
  {
    var ty :- d.DataType();
    if ty.ByteString? {
      var oid :- DecodeOid(d);
      var b :- DecodeBlobs(d);
      return Some(ByOid(oid, b));
    }
    var attributeType :- DecodeAttributeType(d);
    var value :- DecodeTexts(d);
    return Some(Registered(attributeType.0, attributeType.1, value));
  }

  method EncodeAttributes(a: RdnAttributes, e: Encoder)
    modifies e
    ensures e.buf == old(e.buf) + EncAttributes(a)
  {
    ghost var before := e.buf;
    match a
    case Registered(id, printable, value) =>
      e.Int(SignedId(id, printable));
      EncodeTexts(value, e);
      Assoc(before, EncInt(SignedId(id, printable)), EncTexts(value));
    case ByOid(oid, b) =>
      e.Bytes(oid);
      EncodeBlobs(b, e);
      Assoc(before, EncBytes(oid), EncBlobs(b));
  }

  method DecodeAttributeRun(n: nat, d: Decoder) returns (r: Option<seq<RdnAttributes>>)
    requires d.Valid()
    modifies d
    ensures d.Valid() && Reads(DecMany(n, DecAttributes, old(d.Rest())), r, d.Rest())
  {
    hide DecAttributes;
    ghost var start := d.Rest();
    var out: seq<RdnAttributes> := [];
    NothingDone(DecMany(n, DecAttributes, start));
    for left := n downto 0
      invariant d.Valid()
      invariant DecMany(n, DecAttributes, start) == After(out, DecMany(left, DecAttributes, d.Rest()))
    {
      ghost var here := d.Rest();
      var a := DecodeAttributes(d);
      ReadStep(n, left, DecAttributes, start, out, here, a, d.Rest());
      if a.None? {
        return None;
      }
      out := out + [a.value];
    }
    NothingLeft(out, DecAttributes, d.Rest());
    return Some(out);
  }

  method DecodeDirectory(d: Decoder) returns (r: Option<PairVec<RdnAttributes>>)
    requires d.Valid()
    modifies d
    ensures d.Valid() && Reads(DecDirectory(old(d.Rest())), r, d.Rest())
  {
    var len :- DefiniteArrayLen(d);
    if len % 2 != 0 {
      return None;
    }
    var out :- DecodeAttributeRun(len / 2, d);
    return Some(out);
  }

  method EncodeDirectory(attrs: PairVec<RdnAttributes>, e: Encoder)
    modifies e
    ensures e.buf == old(e.buf) + EncDirectory(attrs)
  {
    ghost var before := e.buf;
    e.Array(2 * |attrs|);
    ghost var head := e.buf;
    assert attrs[0..] == attrs;
    for i := 0 to |attrs|
      invariant head + ConcatMap(attrs, EncAttributes) == e.buf + ConcatMap(attrs[i..], EncAttributes)
    {
      WriteOne(attrs, i, EncAttributes, e.buf);
      EncodeAttributes(attrs[i], e);
    }
    NothingBefore(e.buf);
    Assoc(before, EncArrayHead(2 * |attrs|), ConcatMap(attrs, EncAttributes));
  }
}
