/** Reading and writing certificates step by step (src/certificate.rs, src/main.rs). */
module CertificateCodec {
  import opened Wrappers
  import opened ByteStrings
  import opened RustTypes
  import opened Cbor
  import opened Minicbor
  import opened Common
  import opened Names
  import opened Algorithms
  import opened Extensions
  import opened ExtensionCodec
  import opened Certificates

  method ReadNotAfter(d: Decoder) returns (r: Option<Option<OffsetDateTime>>)
    requires d.Valid()
    modifies d
    ensures d.Valid() && Reads(DecNotAfter(old(d.Rest())), r, d.Rest())
  {
    var ty :- d.DataType();
    if ty.Null? {
      var _ :- d.Null();
      return Some(None);
    }
    var t :- ReadTime(d);
    return Some(Some(t));
  }

  /** Eleven fields in order from one cursor. */
  method DecodeFields(d: Decoder) returns (r: Option<C509Certificate>)
    requires d.Valid()
    modifies d
    ensures d.Valid() && Reads(DecSequence(old(d.Rest())), r, d.Rest())
  {
    hide DecI32, DecBigUint, DecAlgorithm, DecOptionalName, DecTime, DecNotAfter, DecName, DecBytes, DecExtensions;
    var certificateType :- d.I32();
    var serialNumber :- ReadBigUint(d);
    var signatureAlgorithm :- DecodeAlgorithm(d);
    var issuer :- DecodeOptionalName(d);
    var notBefore :- ReadTime(d);
    var notAfter :- ReadNotAfter(d);
    var subject :- DecodeName(d);
    var publicKeyAlgorithm :- DecodeAlgorithm(d);
    var publicKey :- d.Bytes();
    var extensions :- DecodeExtensions(d);
    var signature :- d.Bytes();
    return Some(C509Certificate(
                  TbsCertificate(
                    certificateType, serialNumber, signatureAlgorithm, issuer, notBefore, notAfter,
                    subject, publicKeyAlgorithm, publicKey, extensions),
                  signature));
  }

  method EncodeFirstFields(t: TbsCertificate, e: Encoder) returns (ok: Outcome)
    modifies e
    ensures Writes(EncFirstFields(t), ok, old(e.buf), e.buf)
  {
    hide EncInt, EncBytes, EncAlgorithm, EncOptionalName, EncTime;
    ghost var b0 := e.buf;
    e.Int(t.certificateType);
    ghost var b1 := e.buf;
    e.Bytes(MinimalBytes(t.serialNumber));
    ghost var b2 := e.buf;
    EncodeAlgorithm(t.signatureAlgorithm, e);
    ghost var b3 := e.buf;
    EncodeOptionalName(t.issuer, e);
    ghost var b4 := e.buf;
    :- EncodeTime(t.notBefore, e);
    ghost var b5 := e.buf;
    match t.notAfter {
      case Some(notAfter) => :- EncodeTime(notAfter, e);
      case None => e.Null();
    }
    ghost var e1, e2, e3, e4 := EncInt(t.certificateType), EncBigUint(t.serialNumber), EncAlgorithm(t.signatureAlgorithm), EncOptionalName(t.issuer);
    ghost var e5, e6 := EncTime(t.notBefore).value, EncNotAfter(t.notAfter).value;
    Assoc(b4, e5, e6);
    Assoc(b3, e4, e5 + e6);
    Assoc(b2, e3, e4 + (e5 + e6));
    Assoc(b1, e2, e3 + (e4 + (e5 + e6)));
    Assoc(b0, e1, e2 + (e3 + (e4 + (e5 + e6))));
    return Pass;
  }

  method EncodeLastFields(c: C509Certificate, e: Encoder) returns (ok: Outcome)
    modifies e
    ensures Writes(EncLastFields(c), ok, old(e.buf), e.buf)
  {
    hide EncName, EncAlgorithm, EncBytes, EncExtensions;
    ghost var b6 := e.buf;
    EncodeName(c.tbs.subject, e);
    ghost var b7 := e.buf;
    EncodeAlgorithm(c.tbs.publicKeyAlgorithm, e);
    ghost var b8 := e.buf;
    e.Bytes(c.tbs.publicKey);
    ghost var b9 := e.buf;
    :- EncodeExtensions(c.tbs.extensions, e);
    e.Bytes(c.signature);
    ghost var e7, e8, e9 := EncName(c.tbs.subject), EncAlgorithm(c.tbs.publicKeyAlgorithm), EncBytes(c.tbs.publicKey);
    ghost var e10, e11 := EncExtensions(c.tbs.extensions).value, EncBytes(c.signature);
    Assoc(b9, e10, e11);
    Assoc(b8, e9, e10 + e11);
    Assoc(b7, e8, e9 + (e10 + e11));
    Assoc(b6, e7, e8 + (e9 + (e10 + e11)));
    return Pass;
  }

  /** Eleven fields in order to one buffer. */
  method EncodeFields(c: C509Certificate, e: Encoder) returns (ok: Outcome)
    modifies e
    ensures Writes(EncSequence(c), ok, old(e.buf), e.buf)
  {
    hide EncFirstFields, EncLastFields;
    ghost var before := e.buf;
    :- EncodeFirstFields(c.tbs, e);
    :- EncodeLastFields(c, e);
    Assoc(before, EncFirstFields(c.tbs).value, EncLastFields(c).value);
    return Pass;
  }

  // ---- The public entry points; `None` where the original returns an error or panics ----------

  method Decode(bytes: Bytes) returns (r: Option<C509Certificate>)
    requires |bytes| < 0x8000_0000_0000_0000
    ensures r == if DecCertificate(bytes).Ok? then Some(DecCertificate(bytes).value) else None
  {
    hide DecSequence, DecArrayHead, Decoder.Rest;
    var d := new Decoder(bytes);
    var n := ExpectArrayLen(d, FIELD_COUNT);
    if n.Failed? {
      return None;
    }
    r := DecodeFields(d);
  }

  method DecodeSequence(bytes: Bytes) returns (r: Option<C509Certificate>)
    requires |bytes| < 0x8000_0000_0000_0000
    ensures r == if DecSequence(bytes).Ok? then Some(DecSequence(bytes).value) else None
  {
    hide DecSequence;
    var d := new Decoder(bytes);
    r := DecodeFields(d);
  }

  method Encode(c: C509Certificate) returns (r: Option<Bytes>)
    ensures r == EncCertificate(c)
  {
    hide EncSequence;
    var e := new Encoder();
    e.Array(FIELD_COUNT);
    NothingBefore(EncArrayHead(FIELD_COUNT));
    var ok := EncodeFields(c, e);
    return if ok.Pass? then Some(e.buf) else None;
  }

  method EncodeSequence(c: C509Certificate) returns (r: Option<Bytes>)
    ensures r == EncSequence(c)
  {
    hide EncSequence;
    var e := new Encoder();
    var ok := EncodeFields(c, e);
    if ok.Pass? {
      NothingBefore(EncSequence(c).value);
    }
    return if ok.Pass? then Some(e.buf) else None;
  }

  /** Takes either form, choosing by the first byte. */
  method DecodeCertificate(bytes: Bytes) returns (r: Option<C509Certificate>)
    requires |bytes| < 0x8000_0000_0000_0000
    ensures r == if DecEither(bytes).Ok? then Some(DecEither(bytes).value) else None
  {
    hide DecSequence, DecCertificate;
    var d := new Decoder(bytes);
    var ty := d.DataType();
    if ty.Some? && IsArray(ty.value) {
      r := Decode(bytes);
    } else {
      r := DecodeSequence(bytes);
    }
  }
}
