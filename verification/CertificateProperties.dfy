/** What a certificate keeps through either wire form. */
module CertificateProperties {
  import opened Wrappers
  import opened ByteStrings
  import opened RustTypes
  import opened Cbor
  import opened Common
  import opened Names
  import opened Algorithms
  import opened Extensions
  import opened ExtensionProperties
  import opened Certificates
  import opened WellFormedness

  lemma NotAfterRoundTrip(t: Option<OffsetDateTime>, rest: Bytes)
    requires EncNotAfter(t).Some?
    ensures DecNotAfter(EncNotAfter(t).value + rest) == Ok(t, rest)
  {
    if t.Some? {
      TimeRoundTrip(t.value, rest);
    } else {
      NullRoundTrip(rest);
    }
  }

  lemma NotAfterIsItem(s: Bytes)
    requires DecNotAfter(s).Ok?
    ensures SkipItems(1, s) == Some(DecNotAfter(s).rest)
  {
    if TypeOf(s).Null? {
      NullIsItem(s);
    } else {
      IntIsItem(s);
    }
  }

  lemma FirstFieldsAreRead(t: TbsCertificate, rest: Bytes) returns (s1: Bytes, s2: Bytes, s3: Bytes, s4: Bytes, s5: Bytes)
    requires EncFirstFields(t).Some? && OptionalNameTyped(t.issuer)
    ensures DecI32(EncFirstFields(t).value + rest) == Ok(t.certificateType, s1)
    ensures DecBigUint(s1) == Ok(t.serialNumber, s2)
    ensures DecAlgorithm(s2) == Ok(t.signatureAlgorithm, s3)
    ensures DecOptionalName(s3) == Ok(t.issuer, s4)
    ensures DecTime(s4) == Ok(t.notBefore, s5)
    ensures DecNotAfter(s5) == Ok(t.notAfter, rest)
    ensures TypeOf(EncFirstFields(t).value + rest) == Numeric
  {
    hide DecBigUint, DecAlgorithm, DecOptionalName, DecTime, DecNotAfter;
    var e1, e2, e3, e4 := EncInt(t.certificateType), EncBigUint(t.serialNumber), EncAlgorithm(t.signatureAlgorithm), EncOptionalName(t.issuer);
    var e5, e6 := EncTime(t.notBefore).value, EncNotAfter(t.notAfter).value;
    s5 := e6 + rest;
    s4 := e5 + s5;
    s3 := e4 + s4;
    s2 := e3 + s3;
    s1 := e2 + s2;
    Assoc(e1, e2 + (e3 + (e4 + (e5 + e6))), rest);
    Assoc(e2, e3 + (e4 + (e5 + e6)), rest);
    Assoc(e3, e4 + (e5 + e6), rest);
    Assoc(e4, e5 + e6, rest);
    Assoc(e5, e6, rest);
    IntRoundTrip(t.certificateType, s1);
    BigUintRoundTrip(t.serialNumber, s2);
    AlgorithmRoundTrip(t.signatureAlgorithm, s3);
    OptionalNameRoundTrip(t.issuer, s4);
    TimeRoundTrip(t.notBefore, s5);
    NotAfterRoundTrip(t.notAfter, rest);
  }

  lemma LastFieldsAreRead(c: C509Certificate, rest: Bytes) returns (s7: Bytes, s8: Bytes, s9: Bytes, s10: Bytes)
    requires EncLastFields(c).Some? && CertificateTyped(c)
    ensures DecName(EncLastFields(c).value + rest) == Ok(c.tbs.subject, s7)
    ensures DecAlgorithm(s7) == Ok(c.tbs.publicKeyAlgorithm, s8)
    ensures DecBytes(s8) == Ok(c.tbs.publicKey, s9)
    ensures DecExtensions(s9) == Ok(ExtensionsSurviving(c.tbs.extensions), s10)
    ensures DecBytes(s10) == Ok(c.signature, rest)
  {
    hide DecAlgorithm, DecName, DecBytes, DecExtensions, EncName, EncAlgorithm, EncExtensions;
    var e7, e8, e9 := EncName(c.tbs.subject), EncAlgorithm(c.tbs.publicKeyAlgorithm), EncBytes(c.tbs.publicKey);
    var e10, e11 := EncExtensions(c.tbs.extensions).value, EncBytes(c.signature);
    s10 := e11 + rest;
    s9 := e10 + s10;
    s8 := e9 + s9;
    s7 := e8 + s8;
    Assoc(e7, e8 + (e9 + (e10 + e11)), rest);
    Assoc(e8, e9 + (e10 + e11), rest);
    Assoc(e9, e10 + e11, rest);
    Assoc(e10, e11, rest);
    NameRoundTrip(c.tbs.subject, s7);
    AlgorithmRoundTrip(c.tbs.publicKeyAlgorithm, s8);
    BytesRoundTrip(c.tbs.publicKey, s9);
    ExtensionsRoundTrip(c.tbs.extensions, s10);
    BytesRoundTrip(c.signature, rest);
  }

  /** The CBOR Sequence form of a typed certificate is read back as what survives of it, before any tail. */
  lemma SequenceRoundTrip(c: C509Certificate, rest: Bytes)
    requires CertificateTyped(c) && EncSequence(c).Some?
    ensures DecSequence(EncSequence(c).value + rest) == Ok(Surviving(c), rest)
    ensures TypeOf(EncSequence(c).value + rest) == Numeric
  {
    hide DecI32, DecBigUint, DecAlgorithm, DecOptionalName, DecTime, DecNotAfter, DecName, DecBytes, DecExtensions;
    var last := EncLastFields(c).value;
    Assoc(EncFirstFields(c.tbs).value, last, rest);
    var s1, s2, s3, s4, s5 := FirstFieldsAreRead(c.tbs, last + rest);
    var s7, s8, s9, s10 := LastFieldsAreRead(c, rest);
  }

  /** So is the array-wrapped form, and whichever of the two forms it is given, the reader of either tells them apart. */
  lemma CertificateRoundTrip(c: C509Certificate, rest: Bytes)
    requires CertificateTyped(c) && EncSequence(c).Some?
    ensures EncCertificate(c) == Some(EncArrayHead(FIELD_COUNT) + EncSequence(c).value)
    ensures DecCertificate(EncCertificate(c).value + rest) == Ok(Surviving(c), rest)
    ensures DecEither(EncCertificate(c).value + rest) == Ok(Surviving(c), rest)
    ensures DecEither(EncSequence(c).value + rest) == Ok(Surviving(c), rest)
  {
    hide DecSequence, EncFirstFields, EncLastFields;
    var fields := EncSequence(c).value;
    Assoc(EncArrayHead(FIELD_COUNT), fields, rest);
    ArrayHeadRoundTrip(FIELD_COUNT, fields + rest);
    SequenceRoundTrip(c, rest);
  }

  // ---- What the decoders accept ---------------------------------------------------------

  lemma FirstFieldsAreItems(s: Bytes, s1: Bytes, s2: Bytes, s3: Bytes, s4: Bytes, s5: Bytes, s6: Bytes)
    requires DecI32(s).Ok? && DecI32(s).rest == s1
    requires DecBigUint(s1).Ok? && DecBigUint(s1).rest == s2
    requires DecAlgorithm(s2).Ok? && DecAlgorithm(s2).rest == s3
    requires DecOptionalName(s3).Ok? && DecOptionalName(s3).rest == s4
    requires DecTime(s4).Ok? && DecTime(s4).rest == s5
    requires DecNotAfter(s5).Ok? && DecNotAfter(s5).rest == s6
    ensures SkipItems(6, s) == Some(s6) && OptionalNameTyped(DecOptionalName(s3).value)
  {
    IntIsItem(s);
    StringIsItem(BYTE_STRING, s1);
    AlgorithmIsItem(s2);
    OptionalNameIsItem(s3);
    IntIsItem(s4);
    NotAfterIsItem(s5);
    ItemsThenItems(1, 1, s4);
    ItemsThenItems(1, 2, s3);
    ItemsThenItems(1, 3, s2);
    ItemsThenItems(1, 4, s1);
    ItemsThenItems(1, 5, s);
  }

  lemma LastFieldsAreItems(s6: Bytes, s7: Bytes, s8: Bytes, s9: Bytes, s10: Bytes)
    requires DecName(s6).Ok? && DecName(s6).rest == s7
    requires DecAlgorithm(s7).Ok? && DecAlgorithm(s7).rest == s8
    requires DecBytes(s8).Ok? && DecBytes(s8).rest == s9
    requires DecExtensions(s9).Ok? && DecExtensions(s9).rest == s10
    requires DecBytes(s10).Ok?
    ensures SkipItems(5, s6) == Some(DecBytes(s10).rest)
    ensures NameTyped(DecName(s6).value) && ExtensionsTyped(DecExtensions(s9).value)
  {
    NameIsItem(s6);
    AlgorithmIsItem(s7);
    StringIsItem(BYTE_STRING, s8);
    ExtensionsAreItem(s9);
    StringIsItem(BYTE_STRING, s10);
    ItemsThenItems(1, 1, s9);
    ItemsThenItems(1, 2, s8);
    ItemsThenItems(1, 3, s7);
    ItemsThenItems(1, 4, s6);
  }

  lemma SequenceParts(s: Bytes)
    returns (s1: Bytes, s2: Bytes, s3: Bytes, s4: Bytes, s5: Bytes, s6: Bytes, s7: Bytes, s8: Bytes, s9: Bytes, s10: Bytes)
    requires DecSequence(s).Ok?
    ensures DecI32(s).Ok? && DecI32(s).rest == s1
    ensures DecBigUint(s1).Ok? && DecBigUint(s1).rest == s2
    ensures DecAlgorithm(s2).Ok? && DecAlgorithm(s2).rest == s3
    ensures DecOptionalName(s3) == Ok(DecSequence(s).value.tbs.issuer, s4)
    ensures DecTime(s4) == Ok(DecSequence(s).value.tbs.notBefore, s5)
    ensures DecNotAfter(s5) == Ok(DecSequence(s).value.tbs.notAfter, s6)
    ensures DecName(s6) == Ok(DecSequence(s).value.tbs.subject, s7)
    ensures DecAlgorithm(s7).Ok? && DecAlgorithm(s7).rest == s8
    ensures DecBytes(s8).Ok? && DecBytes(s8).rest == s9
    ensures DecExtensions(s9) == Ok(DecSequence(s).value.tbs.extensions, s10)
    ensures DecBytes(s10).Ok? && DecBytes(s10).rest == DecSequence(s).rest
  {
    hide DecI32, DecBigUint, DecAlgorithm, DecOptionalName, DecTime, DecNotAfter, DecName, DecBytes, DecExtensions;
    s1 := DecI32(s).rest;
    s2 := DecBigUint(s1).rest;
    s3 := DecAlgorithm(s2).rest;
    s4 := DecOptionalName(s3).rest;
    s5 := DecTime(s4).rest;
    s6 := DecNotAfter(s5).rest;
    s7 := DecName(s6).rest;
    s8 := DecAlgorithm(s7).rest;
    s9 := DecBytes(s8).rest;
    s10 := DecExtensions(s9).rest;
  }

  /** An accepted sequence is eleven well-formed items and gives a typed certificate. */
  lemma SequenceIsElevenItems(s: Bytes)
    requires DecSequence(s).Ok?
    ensures SkipItems(FIELD_COUNT, s) == Some(DecSequence(s).rest)
    ensures CertificateTyped(DecSequence(s).value)
  {
    hide DecI32, DecBigUint, DecAlgorithm, DecOptionalName, DecTime, DecNotAfter, DecName, DecBytes, DecExtensions;
    var s1, s2, s3, s4, s5, s6, s7, s8, s9, s10 := SequenceParts(s);
    FirstFieldsAreItems(s, s1, s2, s3, s4, s5, s6);
    LastFieldsAreItems(s6, s7, s8, s9, s10);
    ItemsThenItems(6, 5, s);
  }

  lemma DatesAreEncodable(s4: Bytes, s5: Bytes)
    requires DecTime(s4).Ok? && DecNotAfter(s5).Ok?
    ensures EncTime(DecTime(s4).value).Some? && EncNotAfter(DecNotAfter(s5).value).Some?
  {
  }

  /** An accepted wrapped certificate is exactly one well-formed item. */
  lemma CertificateIsItem(s: Bytes)
    requires DecCertificate(s).Ok?
    ensures Skip(s) == Some(DecCertificate(s).rest) && CertificateTyped(DecCertificate(s).value)
  {
    ArrayIsItem(s);
    OneItem(s);
    SequenceIsElevenItems(DecArrayHead(s).rest);
  }

  /** What the encoder produces for a typed certificate is well-formed: one item wrapped, eleven in sequence. */
  lemma EncodingIsWellFormed(c: C509Certificate, rest: Bytes)
    requires CertificateTyped(c) && EncSequence(c).Some?
    ensures SkipItems(FIELD_COUNT, EncSequence(c).value + rest) == Some(rest)
    ensures IsItem(EncCertificate(c).value, rest)
  {
    hide DecSequence, EncFirstFields, EncLastFields;
    CertificateRoundTrip(c, rest);
    SequenceRoundTrip(c, rest);
    SequenceIsElevenItems(EncSequence(c).value + rest);
    CertificateIsItem(EncCertificate(c).value + rest);
    OneItem(EncCertificate(c).value + rest);
    ItemIsCaptured(EncCertificate(c).value, rest);
  }

  // ---- When it can be encoded, and what comes back unchanged --------------------------------

  /**
    The public encoders unwrap the result of writing, taking it to be infallible. It is, exactly when
    no date predates the epoch and the extensions have a wire form.
    */
  lemma CertificateEncodes(c: C509Certificate)
    ensures EncSequence(c).Some? <==> CertificateEncodable(c)
    ensures EncCertificate(c).Some? <==> CertificateEncodable(c)
  {
    ExtensionsEncode(c.tbs.extensions);
  }

  /** The exact set of certificates that come back unchanged, in either form. */
  lemma CertificateRoundTripExactly(c: C509Certificate, rest: Bytes)
    requires CertificateEncodable(c)
    ensures EncSequence(c).Some? && EncCertificate(c).Some?
    ensures DecSequence(EncSequence(c).value + rest) == Ok(c, rest) <==> CertificateTyped(c) && ExtensionsLossless(c.tbs.extensions)
    ensures DecCertificate(EncCertificate(c).value + rest) == Ok(c, rest) <==> CertificateTyped(c) && ExtensionsLossless(c.tbs.extensions)
  {
    hide DecSequence, EncFirstFields, EncLastFields;
    CertificateEncodes(c);
    ExtensionsSurviveExactly(c.tbs.extensions);
    if CertificateTyped(c) {
      SequenceRoundTrip(c, rest);
      CertificateRoundTrip(c, rest);
    } else {
      if DecSequence(EncSequence(c).value + rest).Ok? {
        SequenceIsElevenItems(EncSequence(c).value + rest);
      }
      if DecCertificate(EncCertificate(c).value + rest).Ok? {
        CertificateIsItem(EncCertificate(c).value + rest);
      }
    }
  }

  /** The extension lists a decoder can produce but the encoder has no form for. */
  predicate ExtensionsReencodable(list: ExtensionList) {
    if IsSoleKeyUsage(list) then list[0].value.bits < TWO_31 else forall x :: x in list ==> Reencodable(x)
  }

  /**
    Re-encoding an accepted certificate fails only for an extension with the least `i32` as id or a lone
    KeyUsage of 2^31 or more; otherwise the new bytes are read as what survives of it, and writing that
    gives the same bytes once more.
    */
  lemma AcceptedCertificateReencodes(s: Bytes, rest: Bytes)
    requires DecSequence(s).Ok?
    ensures var c := DecSequence(s).value;
            && (EncSequence(c).Some? <==> ExtensionsReencodable(c.tbs.extensions))
            && (EncSequence(c).Some? ==>
                  && DecSequence(EncSequence(c).value + rest) == Ok(Surviving(c), rest)
                  && EncSequence(Surviving(c)) == EncSequence(c))
  {
    hide DecSequence, DecI32, DecBigUint, DecAlgorithm, DecOptionalName, DecName, DecBytes, DecExtensions;
    var c := DecSequence(s).value;
    SequenceIsElevenItems(s);
    var s1, s2, s3, s4, s5, s6, s7, s8, s9, s10 := SequenceParts(s);
    DatesAreEncodable(s4, s5);
    DecodedExtensionsReencode(s9);
    if EncSequence(c).Some? {
      SequenceRoundTrip(c, rest);
      SurvivorsReencode(c.tbs.extensions);
    }
  }

  /** The same of the reader of either form, whichever form the certificate came in and goes out in. */
  lemma AcceptedEitherWayReencodes(s: Bytes, rest: Bytes)
    requires DecEither(s).Ok?
    ensures var c := DecEither(s).value;
            && (CertificateEncodable(c) <==> ExtensionsReencodable(c.tbs.extensions))
            && (CertificateEncodable(c) ==>
                  && EncCertificate(c).Some? && EncSequence(c).Some?
                  && DecEither(EncCertificate(c).value + rest) == Ok(Surviving(c), rest)
                  && DecEither(EncSequence(c).value + rest) == Ok(Surviving(c), rest))
  {
    hide DecSequence, EncFirstFields, EncLastFields;
    var c := DecEither(s).value;
    var fields := if IsArray(TypeOf(s)) then DecArrayHead(s).rest else s;
    AcceptedCertificateReencodes(fields, rest);
    SequenceIsElevenItems(fields);
    CertificateEncodes(c);
    if CertificateEncodable(c) {
      CertificateRoundTrip(c, rest);
    }
  }

  /** Two typed certificates share an encoding only if the same is left of both. */
  lemma EncodingIsUnambiguous(c: C509Certificate, k: C509Certificate, restC: Bytes, restK: Bytes)
    requires CertificateTyped(c) && CertificateTyped(k) && EncSequence(c).Some? && EncSequence(k).Some?
    requires EncSequence(c).value + restC == EncSequence(k).value + restK
    ensures Surviving(c) == Surviving(k) && restC == restK
  {
    hide DecSequence, EncFirstFields, EncLastFields;
    SequenceRoundTrip(c, restC);
    SequenceRoundTrip(k, restK);
  }
}
